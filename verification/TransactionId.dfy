/** Comparison of journal transaction numbers across wraps of their 32-bit counter. */
module TransactionId {
  import opened Arithmetic
  import opened CTypes

  const HALF := 0x8000_0000
  const WRAP := 0x1_0000_0000

  /** `int difference = (x - y)` on unsigned arguments. */
  function Difference(x: u32, y: u32): int
  {
    ToInt32((x - y) % WRAP)
  }

  predicate TidGt(x: u32, y: u32)
  {
    Difference(x, y) > 0
  }

  predicate TidGeq(x: u32, y: u32)
  {
    Difference(x, y) >= 0
  }

  function Tid(counter: int): u32
  {
    counter % WRAP
  }

  /** Whatever the counters, the difference is theirs up to wraps. */
  lemma DifferenceOfCounters(x: int, y: int)
    ensures (Difference(Tid(x), Tid(y)) - (x - y)) % WRAP == 0
    ensures -HALF <= x - y < HALF ==> Difference(Tid(x), Tid(y)) == x - y
  {
    SameResidue(Tid(x) - Tid(y), x - y, WRAP, y / WRAP - x / WRAP);
    var d, w := (x - y) % WRAP, Difference(Tid(x), Tid(y));
    SameResidue(w - (x - y), 0, WRAP, (if w == d then 0 else -1) - (x - y) / WRAP);
  }

  /** Counters less than 2^31 apart are compared correctly, across any number of wraps. */
  lemma ComparesCounters(x: int, y: int)
    requires -HALF < x - y < HALF
    ensures TidGt(Tid(x), Tid(y)) <==> x > y
    ensures TidGeq(Tid(x), Tid(y)) <==> x >= y
  {
    DifferenceOfCounters(x, y);
  }

  /** The counter values of a window shorter than 2^31. */
  predicate InWindow(x: int, low: int)
  {
    low <= x < low + HALF
  }

  /** On a window the two comparisons are a strict and a total order. */
  lemma TotalOrderOnWindow(low: int, x: int, y: int, z: int)
    requires InWindow(x, low) && InWindow(y, low) && InWindow(z, low)
    ensures TidGeq(Tid(x), Tid(y)) || TidGeq(Tid(y), Tid(x))
    ensures TidGeq(Tid(x), Tid(y)) && TidGeq(Tid(y), Tid(x)) ==> Tid(x) == Tid(y)
    ensures TidGeq(Tid(x), Tid(y)) && TidGeq(Tid(y), Tid(z)) ==> TidGeq(Tid(x), Tid(z))
    ensures TidGt(Tid(x), Tid(y)) <==> TidGeq(Tid(x), Tid(y)) && Tid(x) != Tid(y)
  {
    ComparesCounters(x, y);
    ComparesCounters(y, x);
    ComparesCounters(y, z);
    ComparesCounters(x, z);
    DifferenceOfCounters(x, y);
  }

  /** For any two numbers: exactly one of the three relations holds, unless they are 2^31 apart, and
      then none does. */
  lemma Trichotomy(x: u32, y: u32)
    ensures !(TidGt(x, y) && TidGt(y, x))
    ensures (TidGt(x, y) || TidGt(y, x) || x == y) <==> (x - y) % WRAP != HALF
  {
  }

  /** Beyond a window the order goes in circles. */
  lemma CycleBeyondWindow()
    ensures exists x: u32, y: u32, z: u32 :: TidGt(x, y) && TidGt(y, z) && TidGt(z, x)
  {
    assert TidGt(0x6000_0000, 0) && TidGt(0, 0xB000_0000) && TidGt(0xB000_0000, 0x6000_0000);
  }
}
