/**
 * Java `int` arithmetic as performed by `AtomicInteger.incrementAndGet`: two's-complement
 * 32-bit values that wrap from 2^31-1 to -2^31.
 */
module Int32 {

  const Min: int := -0x8000_0000
  const Max: int := 0x7fff_ffff
  const Modulus: int := 0x1_0000_0000

  /** The 32-bit value that a Java `int` holds after counting up to the mathematical integer n. */
  function Wrap(n: int): (r: int)
    ensures Min <= r <= Max
    ensures Min <= n <= Max ==> r == n
  {
    (n - Min) % Modulus + Min
  }

  /** `incrementAndGet` on a counter holding x. */
  function Increment(x: int): (r: int)
    requires Min <= x <= Max
    ensures x < Max ==> r == x + 1
    ensures x == Max ==> r == Min
  {
    if x == Max then Min else x + 1
  }

  /** Incrementing a counter that went through n increments gives the value of n + 1 increments. */
  lemma IncrementWrap(n: int)
    ensures Increment(Wrap(n)) == Wrap(n + 1)
  {
  }

  /** The counter leaves the range where its values increase after 2^31-1 increments. */
  lemma WrapsAtMax()
    ensures Wrap(Max + 1) == Min
  {
  }

}
