/** Optional values. */
module Wrappers {
  datatype Option<+T> = None | Some(value: T)
}

/** Machine words as integers: what narrowing to 32 or 64 bits keeps, and powers of two. */
module Words {

  const TWO_TO_THE_32: nat := 0x1_0000_0000
  const TWO_TO_THE_64: nat := 0x1_0000_0000_0000_0000

  function Bit32(x: int): (r: nat)
    ensures r < TWO_TO_THE_32
    ensures 0 <= x < TWO_TO_THE_32 ==> r == x
  {
    x % TWO_TO_THE_32
  }

  function Bit64(x: int): (r: nat)
    ensures r < TWO_TO_THE_64
    ensures 0 <= x < TWO_TO_THE_64 ==> r == x
  {
    x % TWO_TO_THE_64
  }

  function Pow2(n: nat): (p: nat)
    ensures p >= 1
  {
    if n == 0 then 1 else 2 * Pow2(n - 1)
  }

  function Max(x: int, y: int): int {
    if x > y then x else y
  }

  /** Quotient and remainder are unique. */
  lemma DivideUnique(x: int, p: int, q: int, r: int)
    requires p >= 1 && 0 <= r < p && x == q * p + r
    ensures x / p == q && x % p == r
  {
    var q', r' := x / p, x % p;
    assert x == q' * p + r';
    assert (q - q') * p == r' - r;
    MultipleIsFar(q - q', p);
  }

  lemma MultipleIsFar(d: int, p: int)
    requires p >= 1
    ensures d == 0 || d * p >= p || d * p <= -p
  {
    if d >= 1 { assert d * p == (d - 1) * p + p; }
    if d <= -1 { assert d * p == (d + 1) * p - p; }
  }
}

/** Pages of the linear and physical address spaces. */
module Pages {
  const PAGE: nat := 0x1000
}
