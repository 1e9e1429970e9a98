/**
 Numbers on the console (userprog/exception.cc): the loops of the PrintNum and ReadNum system calls.
 */
module Decimals {
  import opened Associations
  import opened Words

  const ZERO: byte := 48
  const MINUS: byte := 45
  const BUFFER_SIZE: nat := 10
  const MIN_INT: int := -0x8000_0000

  function Digit(d: nat): byte
    requires d < 10
  {
    (48 + d) as byte
  }

  predicate IsDigit(c: byte) {
    48 <= c <= 57
  }

  predicate AllDigits(s: seq<byte>) {
    forall i :: 0 <= i < |s| ==> IsDigit(s[i])
  }

  /** The decimal digits of n, most significant first; none for zero. */
  function Digits(n: nat): (s: seq<byte>)
    ensures AllDigits(s)
  {
    if n == 0 then [] else Digits(n / 10) + [Digit(n % 10)]
  }

  function Abs(n: int): nat {
    if n < 0 then -n else n
  }

  /** The decimal text of an integer. */
  function Text(n: int): (s: seq<byte>) {
    if n == 0 then [ZERO] else (if n < 0 then [MINUS] else []) + Digits(Abs(n))
  }

  /** The value of a digit string, as the reading loop accumulates it. */
  function Number(s: seq<byte>): nat
    requires AllDigits(s)
  {
    if s == [] then 0 else
    assert IsDigit(s[|s| - 1]);
    Number(s[..|s| - 1]) * 10 + (s[|s| - 1] as int - 48)
  }

  datatype Reading = Nothing | NotANumber | Got(value: int)

  /** What ReadNum makes of the characters it was given. */
  function Parse(s: seq<byte>): Reading {
    if s == [] then Nothing else
    var digits := if s[0] == MINUS then s[1..] else s;
    if !AllDigits(digits) then NotANumber
    else Got(if s[0] == MINUS then 0 - Number(digits) else Number(digits))
  }

  lemma {:induction false} NumberOfDigits(n: nat)
    ensures Number(Digits(n)) == n
  {
    if n > 0 {
      NumberOfDigits(n / 10);
      assert Digits(n)[..|Digits(n)| - 1] == Digits(n / 10);
    }
  }

  lemma NumberOfZero()
    ensures Number([ZERO]) == 0
  {
    assert [ZERO][..0] == [];
    assert Number([]) == 0;
  }

  /** Reading what was printed gives the number back, for every integer. */
  lemma ParseOfText(n: int)
    ensures Parse(Text(n)) == Got(n)
  {
    NumberOfDigits(Abs(n));
    if n == 0 {
      NumberOfZero();
    } else if n < 0 {
      assert Text(n)[1..] == Digits(Abs(n));
    } else {
      assert Text(n) == Digits(n);
      assert Digits(n)[0] != MINUS;
    }
  }

  /** Text in the form that printing produces: no leading zeros, no sign on zero. */
  predicate Canonical(s: seq<byte>) {
    s == [ZERO] ||
    var digits := if s != [] && s[0] == MINUS then s[1..] else s;
    digits != [] && digits[0] != ZERO && AllDigits(digits)
  }

  lemma {:induction false} DigitsOfNumber(s: seq<byte>)
    requires AllDigits(s)
    requires s != [] ==> s[0] != ZERO
    ensures Digits(Number(s)) == s && (s != [] ==> Number(s) > 0)
  {
    if s != [] {
      var t := s[..|s| - 1];
      DigitsOfNumber(t);
      assert s == t + [s[|s| - 1]];
    }
  }

  /** Printing what was read gives the text back, for every text in canonical form. */
  lemma TextOfParse(s: seq<byte>)
    requires Canonical(s)
    ensures Parse(s).Got? && Text(Parse(s).value) == s
  {
    if s == [ZERO] {
      NumberOfZero();
    } else {
      var digits := if s[0] == MINUS then s[1..] else s;
      DigitsOfNumber(digits);
      assert s == (if s[0] == MINUS then [MINUS] else []) + digits;
    }
  }

  // ---- PrintNum ----

  /** Whether the print loop stays within its ten-byte buffer. */
  predicate FitsBuffer(n: int32) {
    n > -1_000_000_000 || n == MIN_INT
  }

  lemma {:induction false} DigitCount(n: nat, k: nat)
    ensures |Digits(n)| <= k <==> n < Pow10(k)
    decreases k
  {
    if n > 0 && k > 0 {
      DigitCount(n / 10, k - 1);
      assert n / 10 < Pow10(k - 1) <==> n < 10 * Pow10(k - 1);
    }
  }

  function Pow10(k: nat): (r: nat)
    ensures r > 0
  {
    if k == 0 then 1 else 10 * Pow10(k - 1)
  }

  lemma PowersOf10()
    ensures Pow10(8) == 100_000_000 && Pow10(9) == 1_000_000_000 && Pow10(10) == 10_000_000_000
  {
    assert Pow10(3) == 1000;
    assert Pow10(6) == 1_000_000;
  }

  /** The decimal text of an int fits the buffer exactly for numbers above -10^9. */
  lemma TextFits(n: int32)
    ensures |Text(n)| <= BUFFER_SIZE <==> n > -1_000_000_000
  {
    PowersOf10();
    if n != 0 {
      DigitCount(Abs(n), if n < 0 then 9 else 10);
    }
  }

  ghost function Reversed(s: seq<byte>): (r: seq<byte>)
    ensures |r| == |s|
  {
    seq(|s|, i requires 0 <= i < |s| => s[|s| - 1 - i])
  }

  /** The digit loop: least significant digit first. */
  method WriteDigits(out: array<byte>, num: nat) returns (leng: nat)
    requires |Digits(num)| <= out.Length
    modifies out
    ensures leng == |Digits(num)| && out[..leng] == Reversed(Digits(num))
  {
    leng := 0;
    var n := num;
    while n > 0
      invariant leng + |Digits(n)| == |Digits(num)|
      invariant forall i :: 0 <= i < leng ==> out[i] == Digits(num)[|Digits(num)| - 1 - i]
      invariant Digits(n) == Digits(num)[..|Digits(num)| - leng]
    {
      assert Digits(n)[..|Digits(n)| - 1] == Digits(n / 10);
      assert Digits(n)[|Digits(n)| - 1] == Digits(num)[|Digits(num)| - 1 - leng];
      out[leng] := Digit(n % 10);
      leng := leng + 1;
      n := n / 10;
    }
  }

  method SwapEnds(out: array<byte>, leng: nat)
    requires leng <= out.Length
    modifies out
    ensures out[..leng] == Reversed(old(out[..leng]))
  {
    var i := 0;
    while i < leng / 2
      invariant 0 <= i <= leng / 2
      invariant forall k :: 0 <= k < i ==> out[k] == old(out[leng - 1 - k]) && out[leng - 1 - k] == old(out[k])
      invariant forall k :: i <= k < leng - i ==> out[k] == old(out[k])
    {
      var swap := out[i];
      out[i] := out[leng - i - 1];
      out[leng - i - 1] := swap;
      i := i + 1;
    }
    forall k | 0 <= k < leng ensures out[k] == old(out[leng - 1 - k]) {
      if k >= leng / 2 {
        var j := leng - 1 - k;
        assert j < leng / 2 ==> out[leng - 1 - j] == old(out[j]);
      }
    }
  }

  datatype Printing = Printed(text: seq<byte>) | Overrun

  /** What PrintNum sends to the console.  The most negative int has no positive counterpart: its
      digit loop never runs and only the sign is printed. */
  function Output(n: int32): seq<byte> {
    if n == MIN_INT then [MINUS] else Text(n)
  }

  /** Prints every number whose characters fit; the sign of the others is written behind the buffer. */
  method PrintNum(num: int32) returns (r: Printing)
    ensures r == if FitsBuffer(num) then Printed(Output(num)) else Overrun
  {
    var out := new byte[BUFFER_SIZE](_ => 0);
    if num == 0 {
      out[0] := ZERO;
      return Printed(out[..1]);
    }
    var sign := if num > 0 then 1 else -1;
    var n := if sign == 1 then num else Wrap(0 - num as int);
    var leng := 0;
    if n > 0 {
      PowersOf10();
      DigitCount(n, 9);
      DigitCount(n, 10);
      leng := WriteDigits(out, n);
    }
    if sign == -1 && leng == BUFFER_SIZE {
      return Overrun;
    }
    var text := SignAndSwap(out, leng, sign == -1, Digits(if n > 0 then n else 0));
    r := Printed(text);
  }

  /** Appends the sign to the digits and turns the whole around. */
  method SignAndSwap(out: array<byte>, count: nat, negative: bool, ghost s: seq<byte>) returns (text: seq<byte>)
    requires count + (if negative then 1 else 0) <= out.Length && out[..count] == Reversed(s)
    modifies out
    ensures text == (if negative then [MINUS] else []) + s
  {
    var leng := count;
    ghost var digits := out[..count];
    if negative {
      out[leng] := MINUS;
      leng := leng + 1;
    }
    assert out[..leng] == digits + if negative then [MINUS] else [];
    SwapEnds(out, leng);
    ReverseSigned(digits, s, negative);
    text := out[..leng];
  }

  lemma ReverseSigned(digits: seq<byte>, s: seq<byte>, negative: bool)
    requires digits == Reversed(s)
    ensures Reversed(digits + if negative then [MINUS] else []) == (if negative then [MINUS] else []) + s
  {
    var t := digits + if negative then [MINUS] else [];
    var r := (if negative then [MINUS] else []) + s;
    assert |Reversed(t)| == |r|;
    forall i | 0 <= i < |r| ensures Reversed(t)[i] == r[i] {
    }
  }

  // ---- ReadNum ----

  /** The reading loop, over at most nine characters from the console. */
  method ReadNum(num: seq<byte>) returns (r: Reading)
    requires |num| < BUFFER_SIZE
    ensures r == Parse(num)
  {
    if |num| == 0 {
      return Nothing;
    }
    var i := if num[0] == MINUS then 1 else 0;
    ghost var start := i;
    var ans := 0;
    while i < |num|
      invariant start <= i <= |num|
      invariant forall k :: start <= k < i ==> IsDigit(num[k])
      invariant ans == Number(num[start..i])
    {
      if 48 <= num[i] <= 57 {
        assert num[start..i + 1][..i - start] == num[start..i];
        ans := ans * 10 + (num[i] as int - 48);
      } else {
        assert (if start == 1 then num[1..] else num)[i - start] == num[i];
        return NotANumber;
      }
      i := i + 1;
    }
    assert num[start..|num|] == if start == 1 then num[1..] else num;
    if num[0] == MINUS {
      ans := -ans;
    }
    return Got(ans);
  }

  /** What reaches ReadNum of a longer line. */
  function FirstNine(s: seq<byte>): seq<byte> {
    if |s| < BUFFER_SIZE then s else s[..BUFFER_SIZE - 1]
  }

  /** Cutting the last digit off a text divides its number by ten. */
  lemma CutText(n: int)
    requires Abs(n) >= 10
    ensures Parse(Text(n)[..|Text(n)| - 1]) == Got(if n < 0 then 0 - Abs(n) / 10 else Abs(n) / 10)
  {
    var m := if n < 0 then 0 - Abs(n) / 10 else Abs(n) / 10;
    assert Text(n)[..|Text(n)| - 1] == Text(m);
    ParseOfText(m);
  }

  /** Which of the printed numbers are read back: those of at most nine characters. */
  lemma ReadBack(n: int32)
    requires FitsBuffer(n)
    ensures Parse(FirstNine(Output(n))) == Got(n) <==> -100_000_000 < n < 1_000_000_000
  {
    if n == MIN_INT {
      assert [MINUS][1..] == [];
    } else {
      PowersOf10();
      DigitCount(Abs(n), if n < 0 then 8 else 9);
      TextFits(n);
      ParseOfText(n);
      if |Text(n)| == BUFFER_SIZE {
        CutText(n);
      }
    }
  }

  /** Prints a number and reads the line back; None when printing leaves its buffer. */
  method RoundTrip(n: int32) returns (r: Option<Reading>)
    ensures r.None? <==> !FitsBuffer(n)
    ensures r.Some? ==> (r.value == Got(n) <==> -100_000_000 < n < 1_000_000_000)
  {
    var printing := PrintNum(n);
    if printing == Overrun {
      return None;
    }
    ReadBack(n);
    var reading := ReadNum(FirstNine(printing.text));
    r := Some(reading);
  }
}
