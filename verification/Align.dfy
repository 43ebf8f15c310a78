/**
  The mask arithmetic of include/vfn/support/align.h on 64-bit words.
 */
module Align {
  const TWO64: nat := 0x1_0000_0000_0000_0000
  const SIZE_MAX: nat := TWO64 - 1

  function Pow2(s: nat): (p: nat)
    ensures p > 0
  {
    if s == 0 then 1 else 2 * Pow2(s - 1)
  }

  predicate IsPow2(a: nat) {
    a == 1 || (a > 1 && a % 2 == 0 && IsPow2(a / 2))
  }

  function BitAnd(x: nat, y: nat): (r: nat) {
    if x % 2 == 1 && y % 2 == 1 then 1 else 0
  }

  /** C's `&` on non-negative numbers. */
  function And(x: nat, y: nat): (r: nat) {
    if x == 0 || y == 0 then 0 else BitAnd(x, y) + 2 * And(x / 2, y / 2)
  }

  /** C's `~` on a word of `w` bits. */
  function Not(w: nat, x: nat): (r: nat)
    requires x < Pow2(w)
  {
    Pow2(w) - 1 - x
  }

  /** And on one of 64 bits. */
  function Complement(x: nat): (r: nat)
    requires x < TWO64
  {
    SIZE_MAX - x
  }

  /** ALIGN_DOWN(x, a), ALIGN_UP(x, a) and ALIGNED(x, a) */
  function AlignDown(x: nat, a: nat): (r: nat)
    requires 0 < a < TWO64
  {
    And(x, Complement(a - 1))
  }

  function AlignUp(x: nat, a: nat): (r: nat)
    requires 0 < a < TWO64
  {
    AlignDown((x + a - 1) % TWO64, a)
  }

  predicate Aligned(x: nat, a: nat)
    requires 0 < a
  {
    And(x, a - 1) == 0
  }

  /** The width of a word, as a number the verifier does not compute powers of by itself. */
  lemma Word() returns (w: nat)
    ensures w == 64 && Pow2(w) == TWO64
  {
    w := 64;
    TwoTo64(w);
  }

  lemma TwoTo64(w: nat)
    requires w == 64
    ensures Pow2(w) == TWO64
  {
    var s: nat := w / 4;
    TwoTo16(s);
    PowDouble(s, 0x1_0000, s + s);
    PowDouble(s + s, 0x1_0000_0000, w);
  }

  lemma TwoTo16(s: nat)
    requires s == 16
    ensures Pow2(s) == 0x1_0000
  {
    var q: nat := s / 4;
    assert Pow2(q - 4) == 1;
    assert Pow2(q - 3) == 2;
    assert Pow2(q - 2) == 4;
    assert Pow2(q - 1) == 8;
    PowDouble(q, 16, q + q);
    PowDouble(q + q, 256, s);
  }

  lemma PowDouble(s: nat, p: nat, t: nat)
    requires Pow2(s) == p && t == s + s
    ensures Pow2(t) == p * p
  {
    PowAdd(s, s);
  }

  lemma {:induction false} PowAdd(s: nat, t: nat)
    ensures Pow2(s + t) == Pow2(s) * Pow2(t)
  {
    if s > 0 { PowAdd(s - 1, t); }
  }

  /** Halving steps of `&`, `~` and `%` in the shape the inductions below use. */
  lemma {:induction false} AndStep(x: nat, y: nat)
    ensures And(x, y) == BitAnd(x, y) + 2 * And(x / 2, y / 2)
  {
    if x == 0 || y == 0 { assert And(x / 2, y / 2) == 0; }
  }

  lemma {:induction false} AndDouble(x: nat, m: nat)
    ensures And(x, 2 * m) == 2 * And(x / 2, m)
  {
    AndStep(x, 2 * m);
  }

  lemma ModStep(x: nat, p: nat)
    requires p > 0
    ensures x % (2 * p) == x % 2 + 2 * ((x / 2) % p)
  {
    var h := x / 2;
    var q := h / p;
    assert x == 2 * h + x % 2 && h == p * q + h % p;
    assert x == (2 * p) * q + (x % 2 + 2 * (h % p));
    ModUnique(x, 2 * p, q, x % 2 + 2 * (h % p));
  }

  lemma ProductAtLeast(d: int, k: int)
    requires d > 0 && k >= 1
    ensures d * k >= d
  {
    assert d * k == d * (k - 1) + d;
  }

  lemma DivNonNegative(x: nat, d: nat)
    requires d > 0
    ensures x / d >= 0
  {
    var q := x / d;
    assert x == d * q + x % d && 0 <= x % d < d;
    if q < 0 { ProductAtLeast(d, -q); }
  }

  lemma ModUnique(x: int, d: int, q: int, r: int)
    requires d > 0 && x == d * q + r && 0 <= r < d
    ensures x / d == q && x % d == r
  {
    var q', r' := x / d, x % d;
    assert x == d * q' + r';
    if q > q' {
      ProductAtLeast(d, q - q');
    } else if q < q' {
      ProductAtLeast(d, q' - q);
    }
  }

  /** Masking with `a - 1` is remainder by `a`. */
  lemma {:induction false} MaskIsMod(x: nat, s: nat)
    ensures And(x, Pow2(s) - 1) == x % Pow2(s)
  {
    if s > 0 {
      AndStep(x, Pow2(s) - 1);
      MaskIsMod(x / 2, s - 1);
      ModStep(x, Pow2(s - 1));
    }
  }

  /** Masking with `~(a - 1)` drops the remainder. */
  lemma {:induction false} MaskDropsMod(x: nat, w: nat, s: nat)
    requires s <= w && x < Pow2(w)
    ensures Pow2(s) <= Pow2(w) && And(x, Not(w, Pow2(s) - 1)) == x - x % Pow2(s)
  {
    if s == 0 {
      MaskIsMod(x, w);
      ModUnique(x, Pow2(w), 0, x);
    } else {
      MaskDropsMod(x / 2, w - 1, s - 1);
      MaskDropsModStep(x, Pow2(w - 1), Pow2(s - 1));
    }
  }

  lemma {:induction false} MaskDropsModStep(x: nat, w: nat, p: nat)
    requires 0 < p <= w && And(x / 2, w - 1 - (p - 1)) == x / 2 - (x / 2) % p
    ensures And(x, 2 * w - 1 - (2 * p - 1)) == x - x % (2 * p)
  {
    AndDouble(x, w - p);
    ModStep(x, p);
    assert 2 * w - 1 - (2 * p - 1) == 2 * (w - p);
  }

  lemma {:induction false} Pow2Exponent(a: nat) returns (s: nat)
    requires IsPow2(a)
    ensures a == Pow2(s)
  {
    if a == 1 { s := 0; } else {
      s := Pow2Exponent(a / 2);
      s := s + 1;
    }
  }

  lemma {:induction false} Pow2Monotone(s: nat, t: nat)
    ensures Pow2(s) < Pow2(t) ==> s < t
  {
    if s > 0 && t > 0 { Pow2Monotone(s - 1, t - 1); }
  }

  lemma AlignedIsMultiple(x: nat, a: nat)
    requires IsPow2(a)
    ensures Aligned(x, a) <==> x % a == 0
  {
    var s := Pow2Exponent(a);
    MaskIsMod(x, s);
  }

  lemma AlignDownIsFloor(x: nat, a: nat)
    requires IsPow2(a) && a < TWO64 && x < TWO64
    ensures AlignDown(x, a) == x - x % a
  {
    var s := Pow2Exponent(a);
    var w := Word();
    Pow2Monotone(s, w);
    MaskDropsMod(x, w, s);
  }

  lemma {:induction false} Pow2Divides(s: nat, t: nat)
    requires s <= t
    ensures Pow2(t) % Pow2(s) == 0
  {
    PowAdd(s, t - s);
    ModUnique(Pow2(t), Pow2(s), Pow2(t - s), 0);
  }

  /** Two multiples closer than `a` are the same. */
  lemma MultiplesApart(m: int, n: int, a: int)
    requires a > 0 && m % a == 0 && n % a == 0 && m <= n < m + a
    ensures m == n
  {
    assert m == a * (m / a) && n == a * (n / a);
    ModUnique(n, a, m / a, n - m);
  }

  lemma FloorIsMultiple(y: nat, a: nat)
    requires a > 0
    ensures (y - y % a) % a == 0 && y - a < y - y % a <= y
  {
    ModUnique(y - y % a, a, y / a, 0);
  }

  /**
    For a power of two, the 64-bit ALIGN_UP is the least multiple at or above `x`, and it comes out
    below `x` exactly when there is no such multiple in 64 bits.
   */
  lemma AlignUpIsCeiling(x: nat, a: nat)
    requires IsPow2(a) && a < TWO64 && x < TWO64
    ensures AlignUp(x, a) % a == 0 && AlignUp(x, a) < TWO64
    ensures forall m | x <= m < TWO64 && m % a == 0 :: x <= AlignUp(x, a) <= m
    ensures AlignUp(x, a) >= x ==> AlignUp(x, a) - x < a
  {
    assert TWO64 % a == 0 by {
      var w := Word();
      var s := Pow2Exponent(a);
      Pow2Monotone(s, w);
      Pow2Divides(s, w);
    }
    var y := (x + a - 1) % TWO64;
    assert AlignUp(x, a) == y - y % a by { AlignDownIsFloor(y, a); }
    CeilingOf(x, a, AlignUp(x, a));
  }

  lemma CeilingOf(x: nat, a: nat, up: int)
    requires 0 < a < TWO64 && x < TWO64 && TWO64 % a == 0
    requires up == (x + a - 1) % TWO64 - ((x + a - 1) % TWO64) % a
    ensures up % a == 0 && up < TWO64 && (up >= x ==> up - x < a)
    ensures forall m | x <= m < TWO64 && m % a == 0 :: x <= up <= m
  {
    if x + a - 1 < TWO64 {
      ModUnique(x + a - 1, TWO64, 0, x + a - 1);
      CeilingInside(x, a);
    } else {
      var y := x + a - 1 - TWO64;
      ModUnique(x + a - 1, TWO64, 1, y);
      ModUnique(y, a, 0, y);
      ModUnique(0, a, 0, 0);
      NoMultipleLeft(x, a);
    }
  }

  lemma CeilingInside(x: nat, a: nat)
    requires a > 0
    ensures var y := x + a - 1;
            (y - y % a) % a == 0 && x <= y - y % a < x + a && forall m | x <= m && m % a == 0 :: y - y % a <= m
  {
    var y := x + a - 1;
    FloorIsMultiple(y, a);
    forall m | x <= m && m % a == 0 ensures y - y % a <= m {
      if m < y - y % a { MultiplesApart(m, y - y % a, a); }
    }
  }

  lemma NoMultipleLeft(x: nat, a: nat)
    requires a > 0 && TWO64 % a == 0 && TWO64 - a < x
    ensures forall m | x <= m < TWO64 :: m % a != 0
  {
    forall m | x <= m < TWO64 ensures m % a != 0 {
      if m % a == 0 { MultiplesApart(m, TWO64, a); }
    }
  }

  lemma {:induction false} NotStep(w: nat, x: nat)
    requires w > 0 && x < Pow2(w)
    ensures Not(w, x) / 2 == Not(w - 1, x / 2) && Not(w, x) % 2 == 1 - x % 2
  {
    assert Not(w, x) == 2 * Not(w - 1, x / 2) + (1 - x % 2);
  }

  lemma {:induction false} AndNot(w: nat, x: nat)
    requires x < Pow2(w)
    ensures And(x, Not(w, x)) == 0
  {
    if w > 0 {
      NotStep(w, x);
      AndStep(x, Not(w, x));
      AndNot(w - 1, x / 2);
    }
  }

  /** `a & ~(a - 1)` isolates one bit, so it is `a` itself only for a power of two. */
  lemma {:induction false} LowestBit(w: nat, a: nat)
    requires 0 < a < Pow2(w)
    ensures 0 < And(a, Not(w, a - 1)) <= a
    ensures And(a, Not(w, a - 1)) == a <==> IsPow2(a)
  {
    NotStep(w, a - 1);
    AndStep(a, Not(w, a - 1));
    if a % 2 == 0 {
      LowestBit(w - 1, a / 2);
      assert (a - 1) / 2 == a / 2 - 1;
    } else {
      AndNot(w - 1, a / 2);
      assert (a - 1) / 2 == a / 2;
    }
  }

  lemma {:induction false} AlignUpOfOne(a: nat)
    requires 0 < a < TWO64 && !IsPow2(a)
    ensures AlignUp(1, a) % a != 0
  {
    var w := Word();
    LowestBit(w, a);
    ModUnique(1 + a - 1, TWO64, 0, a);
    ModUnique(AlignUp(1, a), a, 0, AlignUp(1, a));
  }

  /** The precondition the header states is exact: ALIGN_UP yields multiples for every input only then. */
  lemma {:induction false} AlignUpNeedsPow2(a: nat)
    requires 0 < a < TWO64
    ensures (forall x | 0 <= x < TWO64 :: AlignUp(x, a) % a == 0) <==> IsPow2(a)
  {
    if IsPow2(a) {
      forall x | 0 <= x < TWO64 ensures AlignUp(x, a) % a == 0 { AlignUpIsCeiling(x, a); }
    } else {
      AlignUpOfOne(a);
    }
  }

  // ----- alignments that are whole pages

  /** `u` shifted left by `s` bits. */
  function Scale(s: nat, u: nat): (r: nat) {
    if s == 0 then u else 2 * Scale(s - 1, u)
  }

  lemma {:induction false} ScaleIsProduct(s: nat, u: nat)
    ensures Scale(s, u) == Pow2(s) * u
  {
    if s > 0 { ScaleIsProduct(s - 1, u); }
  }

  lemma {:induction false} ScaleAdd(s: nat, u: nat, v: nat)
    ensures Scale(s, u + v) == Scale(s, u) + Scale(s, v)
  {
    if s > 0 { ScaleAdd(s - 1, u, v); }
  }

  lemma {:induction false} ScaleApart(s: nat, u: nat, v: nat)
    requires u < v
    ensures Scale(s, u) + Pow2(s) <= Scale(s, v)
  {
    if s > 0 { ScaleApart(s - 1, u, v); }
  }

  lemma {:induction false} ScalePow2(s: nat, t: nat)
    ensures Scale(s, Pow2(t)) == Pow2(s + t)
  {
    if s > 0 { ScalePow2(s - 1, t); }
  }

  lemma DoubleIsPow2(n: nat)
    ensures IsPow2(2 * n) <==> IsPow2(n)
  {
    assert (2 * n) / 2 == n && (2 * n) % 2 == 0;
  }

  lemma {:induction false} ScaledIsPow2(s: nat, b: nat)
    ensures IsPow2(Scale(s, b)) <==> IsPow2(b)
  {
    if s > 0 {
      ScaledIsPow2(s - 1, b);
      DoubleIsPow2(Scale(s - 1, b));
    }
  }

  lemma {:induction false} AndScaled(s: nat, u: nat, v: nat)
    ensures And(Scale(s, u) + Pow2(s) - 1, Scale(s, v)) == Scale(s, And(u, v))
  {
    if s > 0 {
      var x, y := Scale(s - 1, u) + Pow2(s - 1) - 1, Scale(s - 1, v);
      AndScaled(s - 1, u, v);
      AndStep(2 * x + 1, 2 * y);
      assert (2 * x + 1) / 2 == x;
    }
  }

  lemma NoWrap(x: nat, a: nat)
    requires 0 < a && x + a - 1 < TWO64
    ensures a < TWO64 ==> AlignUp(x, a) == AlignDown(x + a - 1, a)
  {
    ModUnique(x + a - 1, TWO64, 0, x + a - 1);
  }

  /** One page rounded up to an alignment of `b` pages: the lowest bit of the alignment comes out. */
  lemma AlignUpOfPage(s: nat, b: nat)
    requires s <= 64 && 0 < b < Pow2(64 - s)
    ensures 0 < Scale(s, b) < TWO64 && AlignUp(Pow2(s), Scale(s, b)) == Scale(s, And(b, Not(64 - s, b - 1)))
  {
    var q, a, p := Pow2(64 - s), Scale(s, b), Pow2(s);
    assert Scale(s, q) == TWO64 by {
      var w := Word();
      ScalePow2(s, w - s);
    }
    assert p <= a <= TWO64 - p by {
      ScaleApart(s, b, q);
      ScaleApart(s, 0, b);
    }
    assert Complement(a - 1) == Scale(s, q - b) by { ScaleAdd(s, b, q - b); }
    assert And(a + p - 1, Scale(s, q - b)) == Scale(s, And(b, q - b)) by { AndScaled(s, b, q - b); }
    assert AlignUp(p, a) == AlignDown(p + a - 1, a) by { NoWrap(p, a); }
  }

  /**
    Aligned mapping documents its alignment as a non-zero multiple of the page size. ALIGN_UP of page
    aligned addresses yields multiples of it only if it is a power of two as well.
   */
  lemma PagesNeedPow2(page: nat, align: nat)
    requires IsPow2(page) && page < TWO64 && 0 < align < TWO64 && align % page == 0
    ensures (forall x | 0 <= x < TWO64 && x % page == 0 :: AlignUp(x, align) % align == 0) <==> IsPow2(align)
  {
    if IsPow2(align) {
      forall x | 0 <= x < TWO64 && x % page == 0 ensures AlignUp(x, align) % align == 0 { AlignUpIsCeiling(x, align); }
    } else {
      var s := Pow2Exponent(page);
      var b := PagesIn(s, align);
      PageMisses(s, b);
      ModUnique(AlignUp(page, align), align, 0, AlignUp(page, align));
      ModUnique(page, page, 1, 0);
    }
  }

  /** For a number of pages that is not a power of two, one page comes out below the alignment. */
  lemma PageMisses(s: nat, b: nat)
    requires s <= 64 && 0 < b < Pow2(64 - s) && !IsPow2(Scale(s, b))
    ensures 0 < Scale(s, b) < TWO64 && Pow2(s) <= AlignUp(Pow2(s), Scale(s, b)) <= Scale(s, b) - Pow2(s)
  {
    AlignUpOfPage(s, b);
    ScaledIsPow2(s, b);
    LowestBit(64 - s, b);
    var v := And(b, Not(64 - s, b - 1));
    ScaleApart(s, v, b);
    ScaleApart(s, 0, v);
  }

  lemma PagesIn(s: nat, align: nat) returns (b: nat)
    requires Pow2(s) < TWO64 && 0 < align < TWO64 && align % Pow2(s) == 0
    ensures s < 64 && align == Scale(s, b) && 0 < b < Pow2(64 - s)
  {
    assert s < 64 by {
      var w := Word();
      Pow2Monotone(s, w);
    }
    b := Quotient(align, Pow2(s));
    ScaleIsProduct(s, b);
    ScaleBelow(s, b);
  }

  lemma Quotient(x: nat, d: nat) returns (q: nat)
    requires d > 0 && x % d == 0
    ensures x == d * q && (x > 0 ==> q > 0)
  {
    DivNonNegative(x, d);
    q := x / d;
  }

  lemma ScaleBelow(s: nat, b: nat)
    requires s < 64 && Scale(s, b) < TWO64
    ensures b < Pow2(64 - s)
  {
    var w := Word();
    ScalePow2(s, w - s);
    if b > Pow2(64 - s) { ScaleApart(s, Pow2(64 - s), b); }
  }

  lemma TwelveBits(u: nat)
    ensures Pow2(12) == 0x1000 && Scale(12, u) == 0x1000 * u
  {
    assert Pow2(4) == 0x10;
    assert Pow2(8) == 0x100;
    assert Pow2(12) == 0x1000;
    ScaleIsProduct(12, u);
  }

  /** Three pages of 4096 bytes: the first page is not brought to a multiple of 12288. */
  lemma ThreePages()
    ensures 0 < AlignUp(0x1000, 0x3000) < 0x3000
  {
    TwelveBits(3);
    ScaledIsPow2(12, 3);
    var w := Word();
    assert 3 < Pow2(w - 12) by { assert Pow2(w - 12) == 2 * Pow2(w - 13) && Pow2(w - 13) == 2 * Pow2(w - 14); }
    PageMisses(12, 3);
  }

  /** And 128k, where the first aligned mapping is looked for by default, is left as it is. */
  lemma ThreePagesHigh()
    ensures AlignUp(0x20000, 0x3000) == 0x20000
  {
    var w := Word();
    var p := Pow2(w - 14);
    var v := 4 * p - 3;
    assert Pow2(w - 12) == 4 * p by { assert Pow2(w - 13) == 2 * p; }
    assert Scale(12, v) == TWO64 - 0x3000 by {
      ScalePow2(12, w - 12);
      ScaleAdd(12, v, 3);
      TwelveBits(3);
    }
    assert And(0x22, v) == 0x20 by {
      MaskedEight(w - 14);
      MaskedTwo(p);
    }
    assert And(0x22FFF, Scale(12, v)) == 0x20000 by {
      TwelveBits(0x22);
      TwelveBits(0x20);
      AndScaled(12, 0x22, v);
    }
    NoWrap(0x20000, 0x3000);
  }

  lemma MaskedEight(k: nat)
    requires k >= 4
    ensures And(8, Pow2(k) - 1) == 8
  {
    MaskIsMod(8, k);
    assert Pow2(k) > 8 by {
      PowAdd(4, k - 4);
      assert Pow2(4) == 16;
    }
    ModUnique(8, Pow2(k), 0, 8);
  }

  lemma MaskedTwo(p: nat)
    requires p > 0 && And(8, p - 1) == 8
    ensures And(0x22, 4 * p - 3) == 0x20
  {
    AndStep(0x22, 4 * p - 3);
    assert (4 * p - 3) / 2 == 2 * p - 2;
    AndStep(0x11, 2 * p - 2);
    assert (2 * p - 2) / 2 == p - 1;
  }
}
