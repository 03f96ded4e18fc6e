/** Bitwise operators on natural numbers. The source's machine words are modelled as numbers:
    a shift by a constant is a multiplication or division by a power of two, a mask of low ones
    is a remainder, and every other mask uses the operators below. */
module Bits {
  import opened Common

  datatype Op = AND | OR | XOR | ANDNOT

  function Bit(op: Op, x: bool, y: bool): bool {
    match op
    case AND => x && y
    case OR => x || y
    case XOR => x != y
    case ANDNOT => x && !y
  }

  function Odd(b: bool): nat { if b then 1 else 0 }

  function Zip(op: Op, a: nat, b: nat): (r: nat)
    decreases a + b
  {
    if a == 0 && b == 0 then 0
    else 2 * Zip(op, a / 2, b / 2) + Odd(Bit(op, a % 2 == 1, b % 2 == 1))
  }

  function And(a: nat, b: nat): nat { Zip(AND, a, b) }
  function Or(a: nat, b: nat): nat { Zip(OR, a, b) }
  function Xor(a: nat, b: nat): nat { Zip(XOR, a, b) }
  function AndNot(a: nat, b: nat): nat { Zip(ANDNOT, a, b) }

  /** A left shift. */
  function Shl(a: int, k: nat): (r: int)
    ensures a >= 0 ==> r >= 0
  {
    if k == 0 then a else 2 * Shl(a, k - 1)
  }

  /** A right shift, arithmetic on a negative number. */
  function Right(x: int, n: nat): (r: int)
    ensures x >= 0 ==> r >= 0
  {
    if n == 0 then x else Right(x, n - 1) / 2
  }

  lemma Halve(a: nat, x: nat)
    ensures (2 * a + x) / 2 == a + x / 2 && (2 * a + x) % 2 == x % 2
  {}

  lemma Recombine(op: Op, u: nat, v: nat, x: nat, y: nat, z: nat)
    requires u % 2 == x % 2 && v % 2 == y % 2
    requires Zip(op, u / 2, v / 2) == z + Zip(op, x / 2, y / 2)
    ensures Zip(op, u, v) == 2 * z + Zip(op, x, y)
  {
    ZipStep(op, u, v);
    ZipStep(op, x, y);
  }

  /** The operators work on the two halves of a word independently, wherever it is cut. */
  lemma {:induction false} ZipSplit(op: Op, a: nat, x: nat, b: nat, y: nat, k: nat)
    requires x < Shl(1, k) && y < Shl(1, k)
    ensures Zip(op, Shl(a, k) + x, Shl(b, k) + y) == Shl(Zip(op, a, b), k) + Zip(op, x, y)
  {
    if k > 0 {
      ZipSplit(op, a, x / 2, b, y / 2, k - 1);
      Halve(Shl(a, k - 1), x);
      Halve(Shl(b, k - 1), y);
      Recombine(op, Shl(a, k) + x, Shl(b, k) + y, x, y, Shl(Zip(op, a, b), k - 1));
    }
  }

  lemma ZipStep(op: Op, a: nat, b: nat)
    ensures Zip(op, a, b) == 2 * Zip(op, a / 2, b / 2) + Odd(Bit(op, a % 2 == 1, b % 2 == 1))
  {}

  lemma {:induction false} ZipBound(op: Op, a: nat, b: nat, k: nat)
    requires a < Shl(1, k) && b < Shl(1, k)
    ensures Zip(op, a, b) < Shl(1, k)
  {
    if k > 0 { ZipBound(op, a / 2, b / 2, k - 1); }
  }

  /** Masking with k ones keeps the low k bits; clearing them leaves nothing. */
  lemma {:induction false} ZipOnes(x: nat, k: nat)
    requires x < Shl(1, k)
    ensures And(x, Shl(1, k) - 1) == x && AndNot(x, Shl(1, k) - 1) == 0
    ensures Or(x, Shl(1, k) - 1) == Shl(1, k) - 1
  {
    if k > 0 {
      hide Zip, Shl;
      ZipOnes(x / 2, k - 1);
      var ones := Shl(1, k) - 1;
      assert ones / 2 == Shl(1, k - 1) - 1 && ones % 2 == 1;
      ZipStep(AND, x, ones); ZipStep(ANDNOT, x, ones); ZipStep(OR, x, ones);
    }
  }

  lemma {:induction false} ZipZero(x: nat)
    ensures And(x, 0) == 0 == And(0, x)
    ensures Or(x, 0) == x == Or(0, x)
    ensures Xor(x, 0) == x == Xor(0, x)
    ensures AndNot(x, 0) == x && AndNot(0, x) == 0
  {
    if x > 0 { ZipZero(x / 2); }
  }

  lemma {:induction false} ZipSelf(x: nat)
    ensures And(x, x) == x == Or(x, x)
    ensures Xor(x, x) == 0 == AndNot(x, x)
  {
    if x > 0 { ZipSelf(x / 2); }
  }

  lemma {:induction false} AndNotTwice(x: nat, m: nat)
    ensures AndNot(AndNot(x, m), m) == AndNot(x, m)
  {
    if x > 0 || m > 0 {
      AndNotTwice(x / 2, m / 2);
      ZipStep(ANDNOT, x, m);
      ZipStep(ANDNOT, AndNot(x, m), m);
    }
  }

  lemma ShlBy4(a: int, k: nat)
    ensures Shl(a, k + 4) == 16 * Shl(a, k)
  {
    assert Shl(a, k + 2) == 2 * Shl(a, k + 1);
    assert Shl(a, k + 4) == 2 * Shl(a, k + 3);
  }

  lemma ShlValues(a: int)
    ensures Shl(a, 4) == 0x10 * a && Shl(a, 8) == 0x100 * a && Shl(a, 12) == 0x1000 * a && Shl(a, 16) == 0x1_0000 * a
    ensures Shl(a, 20) == 0x10_0000 * a
  {
    ShlBy4(a, 0); ShlBy4(a, 4); ShlBy4(a, 8); ShlBy4(a, 12); ShlBy4(a, 16);
  }

  /** A word is its 4 KiB page number and an offset, and every operator works on them separately. */
  lemma ZipPage(op: Op, a: nat, b: nat)
    ensures Zip(op, a, b) == Zip(op, a / 0x1000, b / 0x1000) * 0x1000 + Zip(op, a % 0x1000, b % 0x1000)
  {
    hide Zip;
    ShlValues(1); ShlValues(a / 0x1000); ShlValues(b / 0x1000); ShlValues(Zip(op, a / 0x1000, b / 0x1000));
    ZipSplit(op, a / 0x1000, a % 0x1000, b / 0x1000, b % 0x1000, 12);
  }

  lemma PageOnes(x: nat)
    requires x < 0x1000
    ensures And(x, 0xFFF) == x && AndNot(x, 0xFFF) == 0 && Or(x, 0xFFF) == 0xFFF
  {
    hide Zip;
    ShlValues(1);
    ZipOnes(x, 12);
  }

  lemma {:induction false} ZipSwap(op: Op, a: nat, b: nat)
    requires !op.ANDNOT?
    ensures Zip(op, a, b) == Zip(op, b, a)
    decreases a + b
  {
    if a > 0 || b > 0 {
      ZipSwap(op, a / 2, b / 2);
      ZipStep(op, a, b);
      ZipStep(op, b, a);
    }
  }

  /** A mask of k low ones keeps the low part. */
  lemma AndLow(a: nat, x: nat, k: nat)
    requires x < Shl(1, k)
    ensures And(Shl(a, k) + x, Shl(1, k) - 1) == x
  {
    hide Zip, Shl;
    ZipSplit(AND, a, x, 0, Shl(1, k) - 1, k);
    ZipZero(a);
    ZipOnes(x, k);
    ShlZero(k);
  }

  lemma {:induction false} ShlZero(k: nat)
    ensures Shl(0, k) == 0
  {
    if k > 0 { ShlZero(k - 1); }
  }

  lemma {:induction false} ShlAdd(a: int, j: nat, k: nat)
    ensures Shl(a, j + k) == Shl(Shl(a, j), k)
  {
    if k > 0 { ShlAdd(a, j, k - 1); assert j + k - 1 == j + (k - 1); }
  }

  /** Parts that do not overlap are or-ed by adding them. */
  lemma OrHighLow(a: nat, x: nat, k: nat)
    requires x < Shl(1, k)
    ensures Or(Shl(a, k), x) == Shl(a, k) + x == Or(x, Shl(a, k))
  {
    hide Zip, Shl;
    ZipSplit(OR, a, 0, 0, x, k);
    ZipSplit(OR, 0, x, a, 0, k);
    ZipZero(a);
    ZipZero(x);
    ShlZero(k);
  }

  /** The low 32 bits of a left shift come from the low 32 bits. */
  lemma {:induction false} ShlLow32(a: nat, k: nat)
    ensures Shl(a, k) % 0x1_0000_0000 == Shl(a % 0x1_0000_0000, k) % 0x1_0000_0000
  {
    if k > 0 {
      ShlLow32(a, k - 1);
      DoubleLow32(Shl(a, k - 1), Shl(a % 0x1_0000_0000, k - 1));
    }
  }

  lemma DoubleLow32(u: nat, v: nat)
    requires u % 0x1_0000_0000 == v % 0x1_0000_0000
    ensures (2 * u) % 0x1_0000_0000 == (2 * v) % 0x1_0000_0000
  {
    var p, q, r := u / 0x1_0000_0000, v / 0x1_0000_0000, u % 0x1_0000_0000;
    var carry := if r >= 0x8000_0000 then 1 else 0;
    Euclid(2 * u, 0x1_0000_0000, 2 * p + carry, 2 * r - carry * 0x1_0000_0000);
    Euclid(2 * v, 0x1_0000_0000, 2 * q + carry, 2 * r - carry * 0x1_0000_0000);
  }

  lemma ShlWords(a: int)
    ensures Shl(a, 29) == 0x2000_0000 * a && Shl(a, 32) == 0x1_0000_0000 * a
    ensures Shl(a, 64) == 0x1_0000_0000_0000_0000 * a
  {
    hide Shl;
    ShlValues(a);
    ShlAdd(a, 20, 8); ShlValues(Shl(a, 20));
    ShlStep(a, 28);
    ShlAdd(a, 16, 16); ShlValues(Shl(a, 16));
    ShlAdd(a, 32, 16); ShlValues(Shl(a, 32));
    ShlAdd(a, 48, 16); ShlValues(Shl(a, 48));
  }

  lemma ShlStep(a: int, k: nat)
    ensures Shl(a, k + 1) == 2 * Shl(a, k)
  {}

  // ---- Single bits ----------------------------------------------------------------------------------

  predicate BitAt(x: int, i: nat) { Right(x, i) % 2 == 1 }

  /** The low k bits. */
  function Low(x: int, k: nat): nat
    decreases k
  {
    if k == 0 then 0 else 2 * Low(x / 2, k - 1) + x % 2
  }

  lemma {:induction false} RightHalf(x: int, k: nat)
    ensures Right(x, k + 1) == Right(x / 2, k)
  {
    if k > 0 { RightHalf(x, k - 1); }
  }

  lemma {:induction false} RightAdd(x: int, j: nat, k: nat)
    ensures Right(x, j + k) == Right(Right(x, j), k)
  {
    if k > 0 { RightAdd(x, j, k - 1); assert j + k - 1 == j + (k - 1); }
  }

  lemma {:induction false} SplitAt(x: int, k: nat)
    ensures x == Shl(Right(x, k), k) + Low(x, k) && Low(x, k) < Shl(1, k)
    decreases k
  {
    if k > 0 {
      SplitAt(x / 2, k - 1);
      RightHalf(x, k - 1);
    }
  }

  predicate SameBits(x: int, y: int, k: nat) { forall j :: 0 <= j < k ==> BitAt(x, j) == BitAt(y, j) }

  lemma {:induction false} LowByBits(x: int, y: int, k: nat)
    ensures Low(x, k) == Low(y, k) <==> SameBits(x, y, k)
    decreases k
  {
    if k > 0 {
      LowByBits(x / 2, y / 2, k - 1);
      SameBitsStep(x, y, k);
    }
  }

  lemma SameBitsStep(x: int, y: int, k: nat)
    requires k > 0
    ensures SameBits(x, y, k) <==> x % 2 == y % 2 && SameBits(x / 2, y / 2, k - 1)
  {
    forall j | 0 <= j < k - 1
      ensures BitAt(x, j + 1) == BitAt(x / 2, j) && BitAt(y, j + 1) == BitAt(y / 2, j)
    {
      RightHalf(x, j);
      RightHalf(y, j);
    }
    assert BitAt(x, 0) == (x % 2 == 1) && BitAt(y, 0) == (y % 2 == 1);
    hide BitAt;
    if x % 2 == y % 2 && SameBits(x / 2, y / 2, k - 1) {
      forall j | 0 <= j < k ensures BitAt(x, j) == BitAt(y, j) {
        if j > 0 { assert BitAt(x / 2, j - 1) == BitAt(y / 2, j - 1); }
      }
    }
    if SameBits(x, y, k) {
      assert BitAt(x, 0) == BitAt(y, 0);
      forall j | 0 <= j < k - 1 ensures BitAt(x / 2, j) == BitAt(y / 2, j) {
        assert BitAt(x, j + 1) == BitAt(y, j + 1);
      }
    }
  }

  /** Adding a multiple of 2^k changes no bit below bit k. */
  lemma {:induction false} RightPlus(x: int, a: int, k: nat, i: nat)
    requires i <= k
    ensures Right(x + Shl(a, k), i) == Right(x, i) + Shl(a, k - i)
  {
    if i > 0 { RightPlus(x, a, k, i - 1); }
  }

  lemma LowBitsKept(x: int, a: int, k: nat, i: nat)
    requires i < k
    ensures BitAt(x + Shl(a, k), i) == BitAt(x, i)
  {
    RightPlus(x, a, k, i);
    ShlStep(a, k - i - 1);
  }

  lemma {:induction false} RightOfSign(i: nat)
    ensures Right(0, i) == 0 && Right(-1, i) == -1
  {
    if i > 0 { RightOfSign(i - 1); }
  }
}
