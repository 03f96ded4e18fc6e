/** What several components share: optional values, 4 KiB pages of a 32-bit address space, and one order lemma. */
module Common {
  datatype Option<+T> = None | Some(value: T)

  const PAGE: nat := 0x1000
  const WORDS: nat := 0x400
  const SPACE: nat := 0x1_0000_0000

  /** The last byte of a range, cut off at the end of the address space. */
  function LastByte(paddr: nat, length: nat): nat
    requires length > 0
  {
    if paddr + length > SPACE then SPACE - 1 else paddr + length - 1
  }

  lemma MulOrder(a: nat, b: int, c: int)
    requires b <= c
    ensures a * b <= a * c
  {}

  /** A quotient and a remainder are what their defining equation says. */
  lemma Euclid(a: int, m: nat, q: int, r: nat)
    requires r < m && a == q * m + r
    ensures a / m == q && a % m == r
  {
    var q', r' := a / m, a % m;
    assert a == q' * m + r';
    Gap(q - q', m);
    assert (q - q') * m == q * m - q' * m;
    Gap(q' - q, m);
    assert (q' - q) * m == q' * m - q * m;
  }

  lemma Gap(k: int, m: nat)
    ensures k >= 1 ==> k * m >= m
  {}

  lemma DivOrder(x: nat, y: nat, d: nat)
    requires x <= y && d > 0
    ensures x / d <= y / d
  {
    var q, r := x / d, y / d;
    if q > r { MulOrder(d, r + 1, q); }
  }
}
