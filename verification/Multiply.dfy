/**
 Mult of machine/mipssim.cc: the R2000 multiplication, a shift-and-add loop on 32-bit
 words producing a 64-bit result in two words.  Words are modelled as integers with
 their wrap-around written out; signed overflow in negation wraps, as on the host.
 */
module Multiply {
  import opened Basics

  const W := 0x1_0000_0000
  const Half := 0x8000_0000

  type Signed = n: int | -0x8000_0000 <= n < 0x8000_0000
  type Word = n: int | 0 <= n < 0x1_0000_0000

  /** Conversion of an int to unsigned int, and back. */
  function Unsigned(n: Signed): (u: Word) {
    if n < 0 then n + W else n
  }

  function ToSigned(u: Word): (n: Signed)
    ensures Unsigned(n) == u
  {
    if u < Half then u else u - W
  }

  /** Two's complement negation of an int: the most negative value stays itself. */
  function Negate(n: Signed): (r: Signed)
    ensures Unsigned(r) == if n <= 0 then 0 - n else W - n
  {
    if n == -Half then n else -n
  }

  lemma Pow32()
    ensures Pow2(32) == W
  {
    assert Pow2(8) == 256;
    assert Pow2(16) == 0x1_0000;
    assert Pow2(24) == 0x100_0000;
  }

  lemma Pow2Bound(i: nat)
    requires i <= 32
    ensures Pow2(i) <= W
    decreases 32 - i
  {
    if i < 32 {
      Pow2Bound(i + 1);
    } else {
      Pow32();
    }
  }

  lemma MulMono(a: int, b: int, c: int)
    requires 0 <= a && b <= c
    ensures a * b <= a * c
  {
    assert 0 <= a * (c - b);
  }

  lemma Distribute(a: int, b: int, c: int)
    ensures a * (b + c) == a * b + a * c
  {
  }

  /** `a0` split at bit `i`: its low `i` bits are `m` and `a` is the rest, shifted
      right arithmetically. */
  ghost predicate Split(a0: int, i: nat, a: int, m: int) {
    a0 == a * Pow2(i) + m && 0 <= m < Pow2(i)
  }

  lemma SplitNext(a0: int, i: nat, a: int, m: int)
    requires Split(a0, i, a, m)
    ensures Split(a0, i + 1, a / 2, if a % 2 == 1 then m + Pow2(i) else m)
  {
    var p := Pow2(i);
    assert a * p == (a / 2) * (2 * p) + (a % 2) * p by {
      assert a == (a / 2) * 2 + a % 2;
    }
  }

  /** A double word held as a pair of words. */
  function Join(hi: Word, lo: Word): (d: int)
    ensures 0 <= d < W * W
  {
    hi * W + lo
  }

  /** Adding two double words, with the carry detected as Mult does. */
  method AddDouble(hi: Word, lo: Word, bHi: Word, bLo: Word) returns (h: Word, l: Word)
    requires Join(hi, lo) + Join(bHi, bLo) < W * W
    ensures Join(h, l) == Join(hi, lo) + Join(bHi, bLo)
  {
    h := hi;
    l := (lo + bLo) % W;
    if l < bLo {
      h := (h + 1) % W;
    }
    h := (h + bHi) % W;
  }

  /** Shifting a double word left by one bit, with the bit carried as Mult does. */
  method ShiftDouble(bHi: Word, bLo: Word) returns (h: Word, l: Word)
    requires 2 * Join(bHi, bLo) < W * W
    ensures Join(h, l) == 2 * Join(bHi, bLo)
  {
    h := (2 * bHi) % W;
    if bLo >= Half {
      h := h + 1;
    }
    l := (2 * bLo) % W;
  }

  /** Two's complement of a double word, as at the end of Mult. */
  method NegateDouble(hi: Word, lo: Word) returns (h: Word, l: Word)
    requires Join(hi, lo) > 0
    ensures Join(h, l) == W * W - Join(hi, lo)
  {
    h := W - 1 - hi;
    l := W - 1 - lo;
    l := (l + 1) % W;
    if l == 0 {
      h := (h + 1) % W;
    }
  }

  /** The loop of Mult: both operands taken as unsigned words.  `a` is shifted
      arithmetically, so it ends at -1 when its sign bit was set. */
  method MultLoop(a0: Signed, b: Signed) returns (hi: Word, lo: Word)
    ensures Join(hi, lo) == Unsigned(b) * Unsigned(a0)
  {
    var a := a0;
    var bLo: Word, bHi: Word := Unsigned(b), 0;
    lo, hi := 0, 0;
    ghost var B: int, m := Unsigned(b), 0;
    var i := 0;
    while i < 32
      invariant 0 <= i <= 32
      invariant Split(a0, i, a, m)
      invariant Partial(B, i, m, Join(hi, lo), Join(bHi, bLo))
    {
      PartialNext(B, i, m, Join(hi, lo), Join(bHi, bLo));
      if a % 2 == 1 {
        hi, lo := AddDouble(hi, lo, bHi, bLo);
        if a == 1 {
          LastBit(a0, i, m);
          return;
        }
      }
      SplitNext(a0, i, a, m);
      m := if a % 2 == 1 then m + Pow2(i) else m;
      bHi, bLo := ShiftDouble(bHi, bLo);
      a := a / 2;
      i := i + 1;
    }
    AllBits(a0, a, m);
  }

  /** The products the loop has built: `sum` for the bits done, `term` for the next. */
  ghost predicate Partial(b: int, i: nat, m: int, sum: int, term: int) {
    term == b * Pow2(i) && sum == b * m
  }

  lemma PartialNext(b: int, i: nat, m: int, sum: int, term: int)
    requires 0 <= b < W && 0 <= m < Pow2(i) && i < 32 && Partial(b, i, m, sum, term)
    ensures sum + term < W * W && 2 * term < W * W
    ensures sum + term == b * (m + Pow2(i))
    ensures Partial(b, i + 1, m, sum, 2 * term)
    ensures Partial(b, i + 1, m + Pow2(i), sum + term, 2 * term)
  {
    var p := Pow2(i);
    Pow2Bound(i + 1);
    Distribute(b, m, p);
    Distribute(b, p, p);
    ProductFits(b, m + p);
    ProductFits(b, p + p);
  }

  lemma ProductFits(b: int, n: int)
    requires 0 <= b < W && 0 <= n <= W
    ensures b * n < W * W
  {
    MulMono(b, n, W);
  }

  lemma LastBit(a0: Signed, i: nat, m: int)
    requires Split(a0, i, 1, m)
    ensures Unsigned(a0) == m + Pow2(i)
  {
  }

  lemma AllBits(a0: Signed, a: int, m: int)
    requires Split(a0, 32, a, m)
    ensures Unsigned(a0) == m
  {
    Pow32();
  }

  /** The signed reading of a result pair. */
  function SignedValue(hi: Signed, lo: Signed): int {
    hi * W + Unsigned(lo)
  }

  /** The unsigned reading of a result pair. */
  function UnsignedValue(hi: Signed, lo: Signed): int {
    Unsigned(hi) * W + Unsigned(lo)
  }

  /** Mult leaves the exact 64-bit product in hi:lo, for all signed and all unsigned
      operands. */
  method Mult(a: Signed, b: Signed, signedArith: bool) returns (hiOut: Signed, loOut: Signed)
    ensures signedArith ==> SignedValue(hiOut, loOut) == a * b
    ensures !signedArith ==> UnsignedValue(hiOut, loOut) == Unsigned(a) * Unsigned(b)
  {
    if a == 0 || b == 0 {
      return 0, 0;
    }
    var negative := false;
    var x, y := a, b;
    if signedArith {
      if x < 0 {
        negative := !negative;
        x := Negate(x);
      }
      if y < 0 {
        negative := !negative;
        y := Negate(y);
      }
    }
    var hi, lo := MultLoop(x, y);
    if signedArith {
      Magnitude(a, b, Unsigned(x), Unsigned(y));
    }
    if negative {
      hi, lo := NegateDouble(hi, lo);
    }
    hiOut, loOut := ToSigned(hi), ToSigned(lo);
  }

  /** The product of the magnitudes fits, and has the sign Mult computed. */
  lemma Magnitude(a: Signed, b: Signed, x: int, y: int)
    requires a != 0 && b != 0 && x == (if a < 0 then 0 - a else a) && y == (if b < 0 then 0 - b else b)
    ensures 0 < y * x <= Half * Half
    ensures a * b == if (a < 0) != (b < 0) then -(y * x) else y * x
  {
    MulMono(y, 1, x);
    MulMono(y, x, Half);
  }
}
