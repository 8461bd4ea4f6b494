/**
 BitMap of userprog/bitmap.cc: an array of 32-bit words used as a set of small numbers.
 The free-sector map, the frame map and the swap map are all BitMaps; elsewhere they
 appear as the bit sequence `Bits` given here.
 */
module BitMaps {
  import opened Basics

  const BitsInWord := 32

  // Bitwise operators on unsigned words, digit by digit.

  predicate BitOf(w: nat, k: nat) {
    if k == 0 then w % 2 == 1 else BitOf(w / 2, k - 1)
  }

  function Digit(b: bool): nat {
    if b then 1 else 0
  }

  function Or(a: nat, b: nat): (r: nat) {
    if a == 0 && b == 0 then 0 else 2 * Or(a / 2, b / 2) + Digit(a % 2 == 1 || b % 2 == 1)
  }

  function And(a: nat, b: nat): (r: nat) {
    if a == 0 || b == 0 then 0 else 2 * And(a / 2, b / 2) + Digit(a % 2 == 1 && b % 2 == 1)
  }

  /** a & ~b */
  function AndNot(a: nat, b: nat): (r: nat) {
    if a == 0 then 0 else 2 * AndNot(a / 2, b / 2) + Digit(a % 2 == 1 && b % 2 == 0)
  }

  lemma {:induction false} MaskBit(k: nat, l: nat)
    ensures BitOf(Pow2(k), l) <==> k == l
  {
    if l == 0 {
    } else if k == 0 {
      ZeroBit(l - 1);
    } else {
      MaskBit(k - 1, l - 1);
    }
  }

  lemma {:induction false} ZeroBit(l: nat)
    ensures !BitOf(0, l)
  {
    if l > 0 {
      ZeroBit(l - 1);
    }
  }

  lemma Halve(n: nat, b: bool)
    ensures (2 * n + Digit(b)) / 2 == n && ((2 * n + Digit(b)) % 2 == 1 <==> b)
  {
  }

  /** The operators act on each digit separately. */
  lemma {:induction false} OrBit(a: nat, b: nat, l: nat)
    ensures BitOf(Or(a, b), l) <==> BitOf(a, l) || BitOf(b, l)
  {
    ZeroBit(l);
    Halve(Or(a / 2, b / 2), a % 2 == 1 || b % 2 == 1);
    if l > 0 {
      OrBit(a / 2, b / 2, l - 1);
    }
  }

  lemma {:induction false} AndNotBit(a: nat, b: nat, l: nat)
    ensures BitOf(AndNot(a, b), l) <==> BitOf(a, l) && !BitOf(b, l)
  {
    ZeroBit(l);
    Halve(AndNot(a / 2, b / 2), a % 2 == 1 && b % 2 == 0);
    if l > 0 {
      AndNotBit(a / 2, b / 2, l - 1);
    }
  }

  /** `w & (1 << k)` is nonzero exactly when bit k of `w` is set. */
  lemma {:induction false} TestMask(w: nat, k: nat)
    ensures And(w, Pow2(k)) != 0 <==> BitOf(w, k)
  {
    if w == 0 {
      ZeroBit(k);
    } else if k > 0 {
      TestMask(w / 2, k - 1);
    } else {
      assert Pow2(0) / 2 == 0;
    }
  }

  /** How many of the bits are clear. */
  function CountClear(bits: seq<bool>): (n: nat)
    ensures n <= |bits|
  {
    if bits == [] then 0 else CountClear(bits[..|bits| - 1]) + if bits[|bits| - 1] then 0 else 1
  }

  /** Marking a clear bit uses up exactly one. */
  lemma {:induction false} CountMark(bits: seq<bool>, i: nat)
    requires i < |bits| && !bits[i]
    ensures CountClear(bits[i := true]) == CountClear(bits) - 1
  {
    var n := |bits| - 1;
    if i == n {
      assert bits[i := true][..n] == bits[..n];
    } else {
      CountMark(bits[..n], i);
      assert bits[i := true][..n] == bits[..n][i := true];
    }
  }

  /** Find succeeds exactly when NumClear is positive. */
  lemma {:induction false} FindIffClear(bits: seq<bool>)
    ensures FirstClear(bits) != -1 <==> CountClear(bits) > 0
  {
    if bits != [] {
      var n := |bits| - 1;
      FindIffClear(bits[..n]);
      if FirstClear(bits[..n]) != -1 { assert !bits[FirstClear(bits[..n])]; }
      if FirstClear(bits) != -1 && FirstClear(bits) < n { assert !bits[..n][FirstClear(bits)]; }
    }
  }

  class BitMap {
    const numBits: nat
    const words: array<nat>

    ghost predicate Valid() {
      words.Length == DivRoundUp(numBits, BitsInWord)
    }

    ghost function Bits(): (bits: seq<bool>)
      requires Valid()
      reads words
      ensures |bits| == numBits
    {
      seq(numBits, i requires 0 <= i < numBits reads words => BitOf(words[i / BitsInWord], i % BitsInWord))
    }

    constructor (nitems: nat)
      ensures Valid() && numBits == nitems && fresh(words)
      ensures Bits() == seq(nitems, _ => false)
    {
      numBits := nitems;
      words := new nat[DivRoundUp(nitems, BitsInWord)];
      new;
      var i := 0;
      while i < numBits
        invariant 0 <= i <= numBits
        invariant forall k :: 0 <= k < i ==> !Bits()[k]
      {
        Clear(i);
        i := i + 1;
      }
    }

    method Mark(which: nat)
      requires Valid() && which < numBits
      modifies words
      ensures Bits() == old(Bits())[which := true]
    {
      var w, k := words[which / BitsInWord], which % BitsInWord;
      words[which / BitsInWord] := Or(w, Pow2(k));
      forall i | 0 <= i < numBits ensures Bits()[i] == old(Bits())[which := true][i] {
        OrBit(w, Pow2(k), i % BitsInWord);
        MaskBit(k, i % BitsInWord);
      }
    }

    method Clear(which: nat)
      requires Valid() && which < numBits
      modifies words
      ensures Bits() == old(Bits())[which := false]
    {
      var w, k := words[which / BitsInWord], which % BitsInWord;
      words[which / BitsInWord] := AndNot(w, Pow2(k));
      forall i | 0 <= i < numBits ensures Bits()[i] == old(Bits())[which := false][i] {
        AndNotBit(w, Pow2(k), i % BitsInWord);
        MaskBit(k, i % BitsInWord);
      }
    }

    method Test(which: nat) returns (b: bool)
      requires Valid() && which < numBits
      ensures b == Bits()[which]
    {
      TestMask(words[which / BitsInWord], which % BitsInWord);
      b := And(words[which / BitsInWord], Pow2(which % BitsInWord)) != 0;
    }

    /** Find: the first clear bit, which becomes set; -1 if there is none. */
    method Find() returns (r: int)
      requires Valid()
      modifies words
      ensures r == FirstClear(old(Bits()))
      ensures Bits() == if r == -1 then old(Bits()) else old(Bits())[r := true]
    {
      ghost var bits := Bits();
      var i := 0;
      while i < numBits
        invariant 0 <= i <= numBits
        invariant Bits() == bits && forall k :: 0 <= k < i ==> bits[k]
      {
        var set' := Test(i);
        if !set' {
          Mark(i);
          return i;
        }
        i := i + 1;
      }
      return -1;
    }

    method NumClear() returns (count: nat)
      requires Valid()
      ensures count == CountClear(Bits())
    {
      count := 0;
      var i := 0;
      while i < numBits
        invariant 0 <= i <= numBits && count == CountClear(Bits()[..i])
      {
        assert Bits()[..i + 1][..i] == Bits()[..i];
        var set' := Test(i);
        if !set' {
          count := count + 1;
        }
        i := i + 1;
      }
      assert Bits()[..i] == Bits();
    }
  }
}
