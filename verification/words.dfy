/**
  Machine arithmetic shared by the assembler and both simulators: 16-bit
  words, flag bits, truncation to 16 bits, two's-complement readings and
  sign extension of narrow fields, and the bitwise operators the ALU uses.
  Integers are unbounded here, so every wrap-around of the original code is
  written out explicitly.
 */
module Words {

  /** A 16-bit unsigned value, as held by a register or a memory cell. */
  type Word = w: int | 0 <= w < 0x1_0000

  /** A one-bit flag (Z or C). */
  type Bit = b: int | 0 <= b <= 1

  const WordMod: int := 0x1_0000

  /** 2^n. */
  function Pow2(n: nat): (p: nat)
    ensures p >= 1
  {
    if n == 0 then 1 else 2 * Pow2(n - 1)
  }

  /** The powers of two the instruction fields use. */
  lemma Pow2Table()
    ensures Pow2(4) == 0x10 && Pow2(7) == 0x80 && Pow2(8) == 0x100
    ensures Pow2(9) == 0x200 && Pow2(10) == 0x400
    ensures Pow2(11) == 0x800 && Pow2(12) == 0x1000
    ensures Pow2(15) == 0x8000 && Pow2(16) == 0x1_0000
  {
    assert Pow2(1) == 2;
    assert Pow2(2) == 4;
    assert Pow2(3) == 8;
    assert Pow2(4) == 0x10;
    assert Pow2(5) == 0x20;
    assert Pow2(6) == 0x40;
    assert Pow2(7) == 0x80;
    assert Pow2(8) == 0x100;
    assert Pow2(9) == 0x200;
    assert Pow2(10) == 0x400;
    assert Pow2(11) == 0x800;
    assert Pow2(12) == 0x1000;
    assert Pow2(13) == 0x2000;
    assert Pow2(14) == 0x4000;
    assert Pow2(15) == 0x8000;
  }

  /** `x & 0xFFFF` on an unbounded (possibly negative) integer, which is also
      what a conversion to uint16_t does: the unique word congruent to x. */
  function Trunc16(x: int): (w: Word)
    ensures (x - w) % WordMod == 0
    ensures 0 <= x < WordMod ==> w == x
  {
    x % WordMod
  }

  /** Truncation keeps exactly the words, and moves anything else by a
      multiple of 2^16 in either direction. */
  lemma TruncKeeps(x: int)
    ensures (Trunc16(x) - x) % WordMod == 0
    ensures Trunc16(x) == x <==> 0 <= x < WordMod
  {
    var w := Trunc16(x);
    DivMod(x, WordMod);
    DivUnique(w - x, WordMod, -(x / WordMod), 0);
  }

  /** The word read as a two's-complement int16_t. */
  function Signed16(w: Word): (v: int)
    ensures -0x8000 <= v < 0x8000
    ensures Trunc16(v) == w
  {
    if w >= 0x8000 then w - WordMod else w
  }

  /** Sign extension of a `width`-bit field: the field read as a
      two's-complement number of that width. */
  function SignExtend(v: nat, width: nat): (x: int)
    requires 1 <= width && v < Pow2(width)
    ensures -(Pow2(width - 1) as int) <= x < Pow2(width - 1)
    ensures x == v || x == v - Pow2(width)
  {
    if v >= Pow2(width - 1) then v - Pow2(width) else v
  }

  /** Truncating x to `width` bits and sign-extending it back gives x
      whenever x is representable in `width` bits. */
  lemma SignExtendTruncate(x: int, width: nat)
    requires 1 <= width
    requires -(Pow2(width - 1) as int) <= x < Pow2(width - 1)
    ensures SignExtend(x % Pow2(width), width) == x
  {
    var p := Pow2(width);
    assert p == 2 * Pow2(width - 1);
    if x < 0 {
      DivUnique(x, p, -1, x + p);
    } else {
      DivUnique(x, p, 0, x);
    }
  }

  /** Bitwise AND of two words. */
  function And16(a: Word, b: Word): Word
  {
    ((a as bv16) & (b as bv16)) as int
  }

  /** Bitwise OR of two words. */
  function Or16(a: Word, b: Word): Word
  {
    ((a as bv16) | (b as bv16)) as int
  }

  /** Logical right shift `a >> k` on non-negative integers. */
  function Shr(a: nat, k: nat): (r: nat)
    ensures r <= a
  {
    DivLe(a, Pow2(k));
    a / Pow2(k)
  }

  /** Left shift `a << k` on non-negative integers (no truncation). */
  function Shl(a: nat, k: nat): nat
  {
    a * Pow2(k)
  }

  /** Bit k of a. */
  function BitOf(a: nat, k: nat): Bit
  {
    Shr(a, k) % 2
  }

  lemma MulPos(x: int, y: int)
    requires x > 0 && y > 0
    ensures x * y > 0
  {
  }

  lemma MulAtLeast(x: int, y: int)
    requires x > 0 && y >= 1
    ensures x * y >= x
  {
    if y > 1 {
      MulPos(x, y - 1);
      assert x * y == x * (y - 1) + x;
    }
  }

  lemma MulMono(p: nat, a: int, b: int)
    requires a <= b
    ensures p * a <= p * b
  {
    if a < b && p > 0 {
      MulPos(p, b - a);
    }
  }

  /** Euclidean division is determined by quotient and remainder. */
  lemma DivUnique(a: int, d: int, q: int, r: int)
    requires d > 0 && 0 <= r < d && a == d * q + r
    ensures a / d == q && a % d == r
  {
    var q0, r0 := a / d, a % d;
    assert a == d * q0 + r0;
    assert d * (q - q0) == r0 - r;
    if q > q0 {
      MulAtLeast(d, q - q0);
    } else if q < q0 {
      MulAtLeast(d, q0 - q);
    }
  }

  /** Dividing twice is dividing by the product. */
  lemma DivDiv(a: nat, p: nat, q: nat)
    requires p > 0 && q > 0
    ensures a / p / q == a / (p * q)
  {
    var x, r := a / p, a % p;
    var y, t := x / q, x % q;
    assert a == p * x + r;
    assert x == q * y + t;
    assert p * x == p * q * y + p * t;
    assert p * t + r < p * q by {
      MulMono(p, t, q - 1);
    }
    MulPos(p, q);
    DivUnique(a, p * q, y, p * t + r);
  }

  /** A right shift by k > 0 splits a into the shifted result, the last bit
      shifted out (bit k-1) and the bits below it. */
  lemma {:induction false} ShrSplit(a: nat, k: nat)
    requires k > 0
    ensures a == (Shr(a, k) * 2 + BitOf(a, k - 1)) * Pow2(k - 1) + a % Pow2(k - 1)
  {
    ShrHalves(a, k);
    Recompose(a, Pow2(k - 1), Shr(a, k), BitOf(a, k - 1));
  }

  /** Shifting by k is shifting by k-1 and then halving. */
  lemma ShrHalves(a: nat, k: nat)
    requires k > 0
    ensures Shr(a, k) == a / Pow2(k - 1) / 2 && BitOf(a, k - 1) == a / Pow2(k - 1) % 2
  {
    assert Pow2(k) == Pow2(k - 1) * 2;
    DivDiv(a, Pow2(k - 1), 2);
  }

  /** a is its quotient by p, split into halves, times p, plus the rest. */
  lemma Recompose(a: nat, p: nat, h: int, b: int)
    requires p > 0 && h == a / p / 2 && b == a / p % 2
    ensures a == (h * 2 + b) * p + a % p
  {
    var x := a / p;
    DivMod(a, p);
    DivMod(x, 2);
    Recombine(a, p, x, h * 2 + b, a % p);
  }

  lemma Recombine(a: int, p: int, x: int, y: int, r: int)
    requires a == p * x + r && y == x
    ensures a == y * p + r
  {
  }

  lemma DivLe(a: nat, d: int)
    requires d > 0
    ensures 0 <= a / d <= a
  {
    var q := a / d;
    DivMod(a, d);
    if q > 0 {
      MulAtLeast(q, d);
      assert q * d == d * q;
    }
  }

  lemma DivMod(a: int, d: int)
    requires d > 0
    ensures a == d * (a / d) + a % d
  {
  }

  lemma MulComm(y: int, x: int, p: int)
    requires y == x
    ensures y * p == p * x
  {
  }
}
