/**
 The multiplier of the simulated processor (machine/mipssim.cc): 32 steps of shift and add over
 two-word unsigned numbers.
 */
module Multiplier {
  import opened Words

  const TWO64: int := 0x1_0000_0000_0000_0000

  /** The 64-bit number held in two words. */
  function Pair(hi: word, lo: word): nat {
    hi * TWO32 + lo
  }

  /** Adding word by word with a carry adds the numbers, as long as the sum fits. */
  lemma AddPair(hi: word, lo: word, bHi: word, bLo: word)
    requires Pair(hi, lo) + Pair(bHi, bLo) < TWO64
    ensures var lo' := (lo + bLo) % TWO32;
            var hi' := hi + (if lo' < bLo then 1 else 0) + bHi;
            hi' < TWO32 && Pair(hi', lo') == Pair(hi, lo) + Pair(bHi, bLo)
  {
    var lo' := (lo + bLo) % TWO32;
    assert lo' == if lo + bLo < TWO32 then lo + bLo else lo + bLo - TWO32;
  }

  /** Shifting left word by word doubles the number. */
  lemma ShiftPair(hi: word, lo: word)
    requires 2 * Pair(hi, lo) < TWO64
    ensures var hi' := 2 * hi % TWO32 + if lo >= 0x8000_0000 then 1 else 0;
            var lo' := 2 * lo % TWO32;
            hi' < TWO32 && Pair(hi', lo') == 2 * Pair(hi, lo)
  {
    assert 2 * lo % TWO32 == if lo >= 0x8000_0000 then 2 * lo - TWO32 else 2 * lo;
  }

  /** Complementing both words and adding one with carry negates the number. */
  lemma NegatePair(hi: word, lo: word)
    requires Pair(hi, lo) > 0
    ensures var lo' := (TWO32 - 1 - lo + 1) % TWO32;
            var hi' := (TWO32 - 1 - hi + if lo' == 0 then 1 else 0) % TWO32;
            Pair(hi', lo') == TWO64 - Pair(hi, lo)
  {
    if lo == 0 {
      assert (TWO32 - 1 - lo + 1) % TWO32 == 0;
      assert hi > 0;
    }
  }

  /** u is what is left of a's bits after i steps: a is shifted with its sign, u without. */
  ghost predicate LowBits(a: int, u: nat, neg: bool, i: nat)
    requires i <= 32
  {
    u < Pow2(32 - i) && a == u - if neg then Pow2(32 - i) else 0
  }

  /** The lowest bit and the shifted values agree. */
  lemma ShiftLowBits(a: int, u: nat, neg: bool, i: nat)
    requires i < 32 && LowBits(a, u, neg, i)
    ensures a % 2 == u % 2 && LowBits(a / 2, u / 2, neg, i + 1)
    ensures a == 1 ==> u == 1
  {
    assert Pow2(32 - i) == 2 * Pow2(32 - i - 1);
  }

  /** u times m, kept as repeated addition. */
  ghost function Times(u: nat, m: nat): nat {
    if u == 0 then 0 else m + Times(u - 1, m)
  }

  lemma {:induction false} TimesIsProduct(u: nat, m: nat)
    ensures Times(u, m) == u * m
  {
    if u > 0 {
      TimesIsProduct(u - 1, m);
      assert u * m == (u - 1) * m + m;
    }
  }

  /** One step takes b's current multiple for the lowest bit and halves what is left. */
  lemma {:induction false} HalveTimes(u: nat, m: nat)
    ensures Times(u, m) == (if u % 2 == 1 then m else 0) + Times(u / 2, 2 * m)
  {
    if u >= 2 {
      HalveTimes(u - 2, m);
      assert Times(u, m) == m + (m + Times(u - 2, m));
    }
  }

  lemma MulMonotone(x: nat, x': nat, y: nat)
    requires x <= x'
    ensures x * y <= x' * y
  {
    assert x' * y == x * y + (x' - x) * y;
  }

  lemma MulAtLeast(x: nat, y: nat)
    requires x > 0
    ensures x * y >= y
  {
    MulMonotone(1, x, y);
  }

  lemma ProductFits(x: word, y: word)
    ensures x * y < TWO64
  {
    MulMonotone(x, TWO32 - 1, y);
  }

  lemma StartLowBits(a: int32)
    ensures LowBits(a, Unsigned(a), a < 0, 0)
  {
    PowOf32();
  }

  lemma {:induction false} PowMonotone(i: nat, j: nat)
    requires i <= j
    ensures Pow2(i) <= Pow2(j)
    decreases j
  {
    if i < j {
      PowMonotone(i, j - 1);
    }
  }

  /** The main loop: the product of two words, one bit of the first at a time, stopping early
      when no bits are left. */
  method MultiplyUnsigned(a0: int32, b: word) returns (hi: word, lo: word)
    ensures Pair(hi, lo) == Unsigned(a0) * b
  {
    var a: int := a0;
    var bLo: word, bHi: word := b, 0;
    lo, hi := 0, 0;
    ghost var u: nat, product := Unsigned(a0), Unsigned(a0) * b;
    StartLowBits(a0);
    TimesIsProduct(u, b);
    ProductFits(u, b);
    PowOf32();
    var i := 0;
    while i < 32
      invariant 0 <= i <= 32 && LowBits(a, u, a0 < 0, i)
      invariant Pair(bHi, bLo) < TWO32 * Pow2(i)
      invariant Pair(hi, lo) + Times(u, Pair(bHi, bLo)) == product
    {
      ghost var m := Pair(bHi, bLo);
      ShiftLowBits(a, u, a0 < 0, i);
      HalveTimes(u, m);
      if a % 2 == 1 {
        hi, lo := AddStep(hi, lo, bHi, bLo);
        if a == 0 || a == 1 {
          return;
        }
      }
      PowMonotone(i + 1, 32);
      bHi, bLo := ShiftStep(bHi, bLo);
      a := a / 2;
      u := u / 2;
      i := i + 1;
    }
    assert u == 0;
  }

  method AddStep(hi0: word, lo0: word, bHi: word, bLo: word) returns (hi: word, lo: word)
    requires Pair(hi0, lo0) + Pair(bHi, bLo) < TWO64
    ensures Pair(hi, lo) == Pair(hi0, lo0) + Pair(bHi, bLo)
  {
    AddPair(hi0, lo0, bHi, bLo);
    lo := (lo0 + bLo) % TWO32;
    hi := hi0 + (if lo < bLo then 1 else 0) + bHi;
  }

  method ShiftStep(bHi0: word, bLo0: word) returns (bHi: word, bLo: word)
    requires 2 * Pair(bHi0, bLo0) < TWO64
    ensures Pair(bHi, bLo) == 2 * Pair(bHi0, bLo0)
  {
    ShiftPair(bHi0, bLo0);
    bHi := 2 * bHi0 % TWO32 + if bLo0 >= 0x8000_0000 then 1 else 0;
    bLo := 2 * bLo0 % TWO32;
  }

  /** hi and lo receive the exact double-length product, signed or unsigned. */
  method Mult(a: int32, b: int32, signedArith: bool) returns (hi: int32, lo: int32)
    ensures signedArith ==> hi * TWO32 + Unsigned(lo) == a * b
    ensures !signedArith ==> Pair(Unsigned(hi), Unsigned(lo)) == Unsigned(a) * Unsigned(b)
  {
    if a == 0 || b == 0 {
      return 0, 0;
    }
    var negative := false;
    var x: int32, y: int32 := a, b;
    if signedArith {
      if a < 0 {
        negative := !negative;
        x := Wrap(0 - a as int);
      }
      if b < 0 {
        negative := !negative;
        y := Wrap(0 - b as int);
      }
    }
    assert signedArith ==> Unsigned(x) == Magnitude(a) && Unsigned(y) == Magnitude(b);
    var h, l := MultiplyUnsigned(x, Unsigned(y));
    if negative {
      MulAtLeast(Unsigned(x), Unsigned(y));
      h, l := Negate(h, l);
    }
    if signedArith {
      SignedResult(a, b, h, l);
    } else {
      SignedPair(h, l);
    }
    hi, lo := Signed(h), Signed(l);
  }

  method Negate(hi0: word, lo0: word) returns (hi: word, lo: word)
    requires Pair(hi0, lo0) > 0
    ensures Pair(hi, lo) == TWO64 - Pair(hi0, lo0)
  {
    NegatePair(hi0, lo0);
    hi := TWO32 - 1 - hi0;
    lo := TWO32 - 1 - lo0;
    lo := (lo + 1) % TWO32;
    if lo == 0 {
      hi := (hi + 1) % TWO32;
    }
  }

  /** The unsigned value of |n|, also for the most negative n, whose negation wraps around. */
  function Magnitude(n: int32): (r: word)
    ensures r <= 0x8000_0000
  {
    if n < 0 then Unsigned(Wrap(0 - n as int)) else n
  }

  lemma Magnitudes(a: int32, b: int32)
    ensures Magnitude(a) * Magnitude(b) == if (a < 0) != (b < 0) then -(a * b) else a * b
    ensures Magnitude(a) * Magnitude(b) <= 0x4000_0000_0000_0000
  {
    assert Magnitude(a) == if a < 0 then 0 - a as int else a;
    assert Magnitude(b) == if b < 0 then 0 - b as int else b;
    MulMonotone(Magnitude(a), 0x8000_0000, Magnitude(b));
  }

  /** Reading the upper word as signed reads the pair as signed. */
  lemma SignedPair(h: word, l: word)
    ensures Unsigned(Signed(h)) == h && Unsigned(Signed(l)) == l
    ensures Signed(h) * TWO32 + l == if Pair(h, l) < TWO64 / 2 then Pair(h, l) else Pair(h, l) - TWO64
  {
  }

  /** The sign put back on the product of the magnitudes gives the signed product. */
  lemma SignedResult(a: int32, b: int32, h: word, l: word)
    requires var p := Magnitude(a) * Magnitude(b);
             Pair(h, l) == if (a < 0) != (b < 0) then TWO64 - p else p
    requires a != 0 && b != 0
    ensures Signed(h) * TWO32 + Unsigned(Signed(l)) == a * b
  {
    Magnitudes(a, b);
    MulAtLeast(Magnitude(a), Magnitude(b));
    SignedPair(h, l);
  }
}
