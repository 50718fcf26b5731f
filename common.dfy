/** Scalar aliases shared by the order and the book (include/commonAlias.h). */
module Common {

  /** `Quantity` is an unsigned 32-bit integer; arithmetic on it wraps modulo this. */
  const QUANTITY_MODULUS: int := 0x1_0000_0000

  type Quantity = x: int | 0 <= x < QUANTITY_MODULUS

  /** `OrderId` is an unsigned 64-bit integer. */
  type OrderId = x: int | 0 <= x < 0x1_0000_0000_0000_0000

  /** Prices are only compared and used as map keys, so an integer stands in for the float. */
  type Price = int

  /** The value an unsigned 32-bit computation of `x` leaves behind. */
  function Wrap32(x: int): (r: Quantity)
    ensures 0 <= x < QUANTITY_MODULUS ==> r == x
  {
    x % QUANTITY_MODULUS
  }

  /** Adding to (or subtracting from) an already wrapped value wraps to the same result. */
  lemma Wrap32Shift(x: int, d: int)
    ensures Wrap32(Wrap32(x) + d) == Wrap32(x + d)
  {
    var k := x / QUANTITY_MODULUS;
    assert x == k * QUANTITY_MODULUS + Wrap32(x);
    assert x + d == k * QUANTITY_MODULUS + (Wrap32(x) + d);
  }

  /** `std::min` on quantities. */
  function Min(a: Quantity, b: Quantity): (m: Quantity)
    ensures m <= a && m <= b && (m == a || m == b)
  {
    if a <= b then a else b
  }

  /** Stated apart so that callers with large contexts need not prove it themselves. */
  lemma ConcatAssoc<T>(a: seq<T>, b: seq<T>, c: seq<T>)
    ensures a + b + c == a + (b + c)
  {
  }

  lemma ConcatNil<T>(a: seq<T>)
    ensures a + [] == a && [] + a == a
  {
  }
}
