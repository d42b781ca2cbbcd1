/** Integer arithmetic as the C++ sources use it: division truncates toward zero, and `int` has 32 bits. */
module CInt {
  const INT_MAX := 0x7fff_ffff
  const INT_MIN := -0x8000_0000

  function CDiv(a: int, b: int): int
    requires b > 0
    decreases a < 0
  {
    if a >= 0 then a / b else -CDiv(-a, b)
  }

  function CMod(a: int, b: int): int
    requires b > 0
    decreases a < 0
  {
    if a >= 0 then a % b else -CMod(-a, b)
  }

  predicate FitsInt32(a: int) {
    INT_MIN <= a <= INT_MAX
  }

  /** `static_cast<int>` of a 64-bit value: reduction modulo 2^32 into the signed range. */
  function ToInt32(a: int): int {
    var u := a % 0x1_0000_0000;
    if u <= INT_MAX then u else u - 0x1_0000_0000
  }

  lemma CModOfNegative(a: int, b: int)
    requires a < 0 < b
    ensures CMod(a, b) == -((-a) % b)
  {
    assert CMod(-a, b) == (-a) % b;
  }

  lemma CDivOfNegative(a: int, b: int)
    requires a < 0 < b
    ensures CDiv(a, b) == -((-a) / b)
  {
    assert CDiv(-a, b) == (-a) / b;
  }

  lemma AtLeast(k: int, n: int)
    requires k > 0 && n >= 1
    ensures k * n >= k
  {
  }

  /** A quotient and a remainder in range are the quotient and the remainder. */
  lemma DivUnique(x: int, k: int, q: int, r: int)
    requires k > 0 && x == k * q + r && 0 <= r < k
    ensures x / k == q && x % k == r
  {
    Euclid(x, k);
    SameQuotient(k, q, r, x / k, x % k);
  }

  lemma Euclid(x: int, k: int)
    requires k > 0
    ensures x == k * (x / k) + x % k && 0 <= x % k < k
  {
  }

  lemma SameQuotient(k: int, q: int, r: int, q': int, r': int)
    requires k > 0 && 0 <= r < k && 0 <= r' < k
    requires k * q + r == k * q' + r'
    ensures q == q' && r == r'
  {
    assert k * (q - q') == r' - r && k * (q' - q) == r - r';
    if q > q' {
      AtLeast(k, q - q');
    } else if q < q' {
      AtLeast(k, q' - q);
    }
  }
}
