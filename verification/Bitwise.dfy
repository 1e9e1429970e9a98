/** The bitwise operators of C on 32-bit words, taken digit by digit. */
module Bitwise {
  import opened Words
  import opened BitMaps

  /** The n low digits of a and b combined by f. */
  function Combine(f: (bool, bool) -> bool, a: nat, b: nat, n: nat): (r: nat)
    ensures r < Pow2(n)
  {
    if n == 0 then 0
    else 2 * Combine(f, a / 2, b / 2, n - 1) + if f(a % 2 == 1, b % 2 == 1) then 1 else 0
  }

  lemma {:induction false} CombineBit(f: (bool, bool) -> bool, a: nat, b: nat, n: nat, k: nat)
    requires k < n
    ensures TestBit(Combine(f, a, b, n), k) <==> f(TestBit(a, k), TestBit(b, k))
  {
    if k > 0 {
      assert Combine(f, a, b, n) / 2 == Combine(f, a / 2, b / 2, n - 1);
      CombineBit(f, a / 2, b / 2, n - 1, k - 1);
    }
  }

  /** A number is determined by its digits. */
  lemma {:induction false} SameBits(a: nat, b: nat, n: nat)
    requires a < Pow2(n) && b < Pow2(n)
    requires forall k: nat :: k < n ==> (TestBit(a, k) <==> TestBit(b, k))
    ensures a == b
  {
    if n > 0 {
      assert TestBit(a, 0) <==> TestBit(b, 0);
      forall k: nat | k < n - 1 ensures TestBit(a / 2, k) <==> TestBit(b / 2, k) {
        assert TestBit(a, k + 1) <==> TestBit(b, k + 1);
      }
      SameBits(a / 2, b / 2, n - 1);
    }
  }

  /** A C operator on two ints: the digits of the result are f of the operands' digits. */
  function Apply(f: (bool, bool) -> bool, x: int32, y: int32): (r: int32)
  {
    Wrap(Combine(f, Unsigned(x), Unsigned(y), BITS_IN_WORD))
  }

  predicate Both(p: bool, q: bool) { p && q }

  predicate Either(p: bool, q: bool) { p || q }

  predicate Differ(p: bool, q: bool) { p != q }

  predicate Neither(p: bool, q: bool) { !p && !q }

  function And(x: int32, y: int32): int32 { Apply(Both, x, y) }

  function Or(x: int32, y: int32): int32 { Apply(Either, x, y) }

  function Xor(x: int32, y: int32): int32 { Apply(Differ, x, y) }

  function Nor(x: int32, y: int32): int32 { Apply(Neither, x, y) }

  lemma ApplyBit(f: (bool, bool) -> bool, x: int32, y: int32, k: nat)
    requires k < BITS_IN_WORD
    ensures TestBit(Unsigned(Apply(f, x, y)), k) <==> f(TestBit(Unsigned(x), k), TestBit(Unsigned(y), k))
  {
    PowOf32();
    var c := Combine(f, Unsigned(x), Unsigned(y), BITS_IN_WORD);
    assert Unsigned(Wrap(c)) == c;
    CombineBit(f, Unsigned(x), Unsigned(y), BITS_IN_WORD, k);
  }

  /** The test of x & SIGN_BIT. */
  predicate SignBit(x: int32) {
    TestBit(Unsigned(x), BITS_IN_WORD - 1)
  }

  lemma {:induction false} TopBit(w: nat, k: nat)
    requires w < 2 * Pow2(k)
    ensures TestBit(w, k) <==> w >= Pow2(k)
  {
    if k > 0 {
      TopBit(w / 2, k - 1);
    }
  }

  /** The sign bit is set exactly for the negative numbers. */
  lemma SignBitIsSign(x: int32)
    ensures SignBit(x) <==> x < 0
  {
    PowOf32();
    TopBit(Unsigned(x), BITS_IN_WORD - 1);
  }

  lemma XorSign(x: int32, y: int32)
    ensures SignBit(Xor(x, y)) <==> (x < 0) != (y < 0)
  {
    ApplyBit(Differ, x, y, BITS_IN_WORD - 1);
    SignBitIsSign(x);
    SignBitIsSign(y);
  }

  lemma UnsignedInjective(x: int32, y: int32)
    requires Unsigned(x) == Unsigned(y)
    ensures x == y
  {
  }

  lemma OrSelf(x: int32)
    ensures Or(x, x) == x
  {
    PowOf32();
    forall k: nat | k < BITS_IN_WORD ensures TestBit(Unsigned(Or(x, x)), k) <==> TestBit(Unsigned(x), k) {
      ApplyBit(Either, x, x, k);
    }
    SameBits(Unsigned(Or(x, x)), Unsigned(x), BITS_IN_WORD);
    UnsignedInjective(Or(x, x), x);
  }

  /** y has no digit that x lacks. */
  ghost predicate Covers(x: int32, y: int32) {
    forall k: nat :: k < BITS_IN_WORD && TestBit(Unsigned(y), k) ==> TestBit(Unsigned(x), k)
  }

  lemma OrCovered(x: int32, y: int32)
    ensures Or(x, y) == x <==> Covers(x, y)
  {
    PowOf32();
    forall k: nat | k < BITS_IN_WORD
      ensures TestBit(Unsigned(Or(x, y)), k) <==> TestBit(Unsigned(x), k) || TestBit(Unsigned(y), k)
    {
      ApplyBit(Either, x, y, k);
    }
    if Covers(x, y) {
      SameBits(Unsigned(Or(x, y)), Unsigned(x), BITS_IN_WORD);
      UnsignedInjective(Or(x, y), x);
    }
  }
}
