/**
 * Alignment arithmetic of the bump arena: `ceil_align` and `ceil_align_ptr`
 * (src/arena.rs).  Addresses are naturals; the arena only ever aligns to
 * powers of two (an OS page size, a commit granularity, `align_of::<T>()`).
 */
module Align {

  /** n is one of 1, 2, 4, 8, ... */
  predicate IsPow2(n: nat)
    decreases n
  {
    if n <= 1 then n == 1 else n % 2 == 0 && IsPow2(n / 2)
  }

  lemma Pow2Double(n: nat)
    requires IsPow2(n)
    ensures IsPow2(2 * n)
  {
  }

  /** A power of two times PAGES_PER_COMMIT (16) is again a power of two. */
  lemma Pow2Times16(n: nat)
    requires IsPow2(n)
    ensures IsPow2(n * 16)
  {
    Pow2Double(n);
    Pow2Double(2 * n);
    Pow2Double(4 * n);
    Pow2Double(8 * n);
  }

  /** The product of two powers of two is a power of two. */
  lemma {:induction false} Pow2Product(a: nat, b: nat)
    requires IsPow2(a) && IsPow2(b)
    ensures IsPow2(a * b)
    decreases b
  {
    if b > 1 {
      var h := b / 2;
      assert b == h + h && IsPow2(h);
      Pow2Product(a, h);
      Pow2Double(a * h);
      DoubleMul(a, h);
    }
  }

  lemma DoubleMul(a: nat, h: nat)
    ensures a * (h + h) == 2 * (a * h)
  {
  }

  /** A nonzero multiple of d is at least d away from zero. */
  lemma MulBounds(d: int, x: int)
    requires d >= 0
    ensures x >= 1 ==> d * x >= d
    ensures x <= -1 ==> d * x <= -d
  {
    if x >= 1 {
      assert d * x == d + d * (x - 1);
    } else if x <= -1 {
      assert d * x == -d + d * (x + 1);
    }
  }

  /** Division with remainder has a unique answer. */
  lemma ModUnique(a: nat, d: nat, q: nat, r: nat)
    requires d > 0 && a == d * q + r && r < d
    ensures a % d == r && a / d == q
  {
    var q', r' := a / d, a % d;
    assert a == d * q' + r';
    assert d * (q - q') == r' - r;
    MulBounds(d, q - q');
  }

  lemma MulMod(d: nat, q: nat)
    requires d > 0
    ensures (d * q) % d == 0
  {
    ModUnique(d * q, d, q, 0);
  }

  lemma MulMonotone(d: nat, x: nat, y: nat)
    requires x <= y
    ensures d * x <= d * y
  {
    assert d * y == d * x + d * (y - x);
  }

  /** Halving the dividend and the divisor: a mod 2m from (a / 2) mod m and the low bit. */
  lemma ModDouble(a: nat, m: nat)
    requires m >= 1
    ensures a % (2 * m) == 2 * ((a / 2) % m) + a % 2
  {
    var t, s := (a / 2) / m, (a / 2) % m;
    assert a / 2 == m * t + s;
    assert a == 2 * (a / 2) + a % 2;
    assert a == (2 * m) * t + (2 * s + a % 2);
    ModUnique(a, 2 * m, t, 2 * s + a % 2);
  }

  /** The smaller of two powers of two divides the larger. */
  lemma {:induction false} Pow2Divides(a: nat, b: nat)
    requires IsPow2(a) && IsPow2(b) && a <= b
    ensures b % a == 0
    decreases b
  {
    if a == 1 {
    } else if a == b {
      MulMod(a, 1);
    } else {
      Pow2Divides(a / 2, b / 2);
      var q := (b / 2) / (a / 2);
      assert b / 2 == (a / 2) * q;
      assert b == a * q;
      MulMod(a, q);
    }
  }

  /** If d divides e, every multiple of e is a multiple of d. */
  lemma ModTransitive(v: nat, e: nat, d: nat)
    requires d > 0 && e > 0 && e % d == 0 && v % e == 0
    ensures v % d == 0
  {
    var p, q := v / e, e / d;
    assert e == d * q;
    assert v == e * p == d * (q * p);
    MulMod(d, q * p);
  }

  /**
   * ceil_align on unbounded naturals: the least multiple of `to` that is not
   * below `v`, written `v + (to - v % to) % to`.  The source states the
   * power-of-two assumption in its doc comment.
   */
  function CeilAlign(v: nat, to: nat): (r: nat)
    requires IsPow2(to)
    ensures v <= r < v + to
    ensures r % to == 0
  {
    if v % to == 0 then v
    else
      ModUnique(v + (to - v % to), to, v / to + 1, 0);
      v + (to - v % to)
  }

  /** No multiple of `to` lies in [v, CeilAlign(v, to)). */
  lemma CeilAlignLeast(v: nat, to: nat, m: nat)
    requires IsPow2(to) && m % to == 0 && v <= m
    ensures CeilAlign(v, to) <= m
  {
    if v % to != 0 {
      var q, a := v / to, m / to;
      assert v == to * q + v % to;
      assert m == to * a;
      assert q < a by {
        if a <= q {
          MulMonotone(to, a, q);
        }
      }
      MulMonotone(to, q + 1, a);
      assert to * (q + 1) == to * q + to;
    }
  }

  /** Multiples of `to` are fixed points, so aligning twice changes nothing. */
  lemma CeilAlignFixesMultiples(v: nat, to: nat)
    requires IsPow2(to)
    ensures v % to == 0 <==> CeilAlign(v, to) == v
    ensures CeilAlign(CeilAlign(v, to), to) == CeilAlign(v, to)
  {
  }

  lemma CeilAlignMonotone(v: nat, w: nat, to: nat)
    requires IsPow2(to) && v <= w
    ensures CeilAlign(v, to) <= CeilAlign(w, to)
  {
    CeilAlignLeast(v, to, CeilAlign(w, to));
  }

  /** The expected values of the source's unit tests `correct_8` and `correct_16`. */
  lemma CeilAlignUnitTests()
    ensures CeilAlign(0, 8) == 0 && CeilAlign(1, 8) == 8 && CeilAlign(2, 8) == 8
    ensures CeilAlign(3, 8) == 8 && CeilAlign(4, 8) == 8 && CeilAlign(5, 8) == 8
    ensures CeilAlign(6, 8) == 8 && CeilAlign(7, 8) == 8 && CeilAlign(8, 8) == 8
    ensures CeilAlign(9, 8) == 16
    ensures CeilAlign(0, 16) == 0 && CeilAlign(1, 16) == 16 && CeilAlign(2, 16) == 16
    ensures CeilAlign(3, 16) == 16 && CeilAlign(4, 16) == 16 && CeilAlign(5, 16) == 16
    ensures CeilAlign(15, 16) == 16 && CeilAlign(16, 16) == 16 && CeilAlign(17, 16) == 32
    ensures CeilAlign(18, 16) == 32 && CeilAlign(19, 16) == 32
  {
  }

  // ---------------------------------------------------------------------
  // The bitwise form the source actually evaluates, on 64-bit words.
  // ---------------------------------------------------------------------

  /** 2^64: usize and isize are 64 bits wide on the targets the source supports. */
  const Word: nat := 0x1_0000_0000_0000_0000

  lemma WordIsPow2()
    ensures IsPow2(Word)
  {
    assert IsPow2(0x100);
    Pow2Product(0x100, 0x100);
    Pow2Product(0x1_0000, 0x1_0000);
    Pow2Product(0x1_0000_0000, 0x1_0000_0000);
  }

  /** Bitwise AND of two naturals, one bit at a time. */
  function BitAnd(a: nat, b: nat): nat
    decreases a
  {
    if a == 0 || b == 0 then 0
    else 2 * BitAnd(a / 2, b / 2) + (if a % 2 == 1 && b % 2 == 1 then 1 else 0)
  }

  /** The bit pattern of `-(v as isize)`: two's complement negation modulo 2^64. */
  function WrappingNeg(v: nat): (r: nat)
    requires v < Word
    ensures r < Word
  {
    if v == 0 then 0 else Word - v
  }

  /**
   * `(value as isize + (-(value as isize) & (to as isize - 1))) as usize`,
   * with the addition wrapping at 2^64.
   */
  function CeilAlignWord(v: nat, to: nat): nat
    requires v < Word && 1 <= to <= Word
  {
    (v + BitAnd(WrappingNeg(v), to - 1)) % Word
  }

  /** Masking with align - 1 keeps the low bits: the remainder mod a power of two. */
  lemma {:induction false} BitAndLowMask(a: nat, align: nat)
    requires IsPow2(align)
    ensures BitAnd(a, align - 1) == a % align
    decreases align
  {
    if align == 1 {
      ModUnique(a, 1, a, 0);
    } else if a == 0 {
      ModUnique(0, align, 0, 0);
    } else {
      var m := align / 2;
      assert align == 2 * m;
      assert (align - 1) / 2 == m - 1 && (align - 1) % 2 == 1;
      BitAndLowMask(a / 2, m);
      assert BitAnd(a, align - 1) == 2 * BitAnd(a / 2, m - 1) + a % 2;
      ModDouble(a, m);
    }
  }

  lemma WordDivisible(to: nat)
    requires IsPow2(to) && to <= Word
    ensures Word % to == 0
  {
    WordIsPow2();
    Pow2Divides(to, Word);
  }

  /** The padding `(to - v % to) % to` is exactly what CeilAlign adds. */
  lemma PaddingIsCeilAlign(v: nat, to: nat)
    requires IsPow2(to)
    ensures (to - v % to) % to == CeilAlign(v, to) - v
  {
    if v % to == 0 {
      ModUnique(to, to, 1, 0);
    } else {
      ModUnique(to - v % to, to, 0, to - v % to);
    }
  }

  /** Modulo any multiple `w` of `to`, w - v leaves the padding of v up to a multiple of `to`. */
  lemma ComplementMod(w: nat, v: nat, to: nat)
    requires to > 0 && w % to == 0 && v < w
    ensures (w - v) % to == (to - v % to) % to
  {
    var c := w / to;
    assert w == to * c;
    var q, r := v / to, v % to;
    assert v == to * q + r;
    if q >= c {
      MulMonotone(to, c, q);
      assert false;
    }
    if r == 0 {
      assert w - v == to * (c - q);
      MulMod(to, c - q);
      ModUnique(to, to, 1, 0);
    } else {
      assert w - v == to * (c - q - 1) + (to - r);
      ModUnique(w - v, to, c - q - 1, to - r);
      ModUnique(to - r, to, 0, to - r);
    }
  }

  /** The remainder of the negated pattern is the padding up to the next multiple. */
  lemma NegModPow2(v: nat, to: nat)
    requires IsPow2(to) && to <= Word && 0 < v < Word
    ensures WrappingNeg(v) % to == (to - v % to) % to
  {
    WordDivisible(to);
    assert WrappingNeg(v) == Word - v;
    ComplementMod(Word, v, to);
  }

  /**
   * On every input where the source's isize arithmetic cannot overflow
   * (v + to stays within isize::MAX + 1 = 2^63), the bitwise expression of
   * ceil_align computes CeilAlign.
   */
  lemma CeilAlignWordAgrees(v: nat, to: nat)
    requires IsPow2(to) && v + to <= Word / 2
    ensures CeilAlignWord(v, to) == CeilAlign(v, to)
  {
    var pad := BitAnd(WrappingNeg(v), to - 1);
    BitAndLowMask(WrappingNeg(v), to);
    if v > 0 {
      NegModPow2(v, to);
    } else {
      ModUnique(to, to, 1, 0);
    }
    PaddingIsCeilAlign(v, to);
    assert pad == CeilAlign(v, to) - v;
    ModUnique(v + pad, Word, 0, v + pad);
  }
}
