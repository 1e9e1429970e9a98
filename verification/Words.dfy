/**
 Machine words and bytes.  The simulated machine, the disk and the host are all
 little endian, so a C int stored through a char pointer becomes its four bytes,
 least significant first.
 */
module Words {

  newtype byte = x: int | 0 <= x < 256

  const TWO32: int := 0x1_0000_0000

  /** C's unsigned int. */
  type word = n: nat | n < TWO32

  /** C's int: a 32-bit two's complement number. */
  predicate IsInt32(n: int) {
    -0x8000_0000 <= n < 0x8000_0000
  }

  type int32 = n: int | -0x8000_0000 <= n < 0x8000_0000

  /** The value of an int expression after wrap-around. */
  function Wrap(n: int): (r: int)
    ensures IsInt32(r) && (r - n) % TWO32 == 0
    ensures IsInt32(n) ==> r == n
  {
    var u := n % TWO32;
    if u < 0x8000_0000 then u else u - TWO32
  }

  function Pow2(k: nat): (r: nat)
    ensures r > 0
  {
    if k == 0 then 1 else 2 * Pow2(k - 1)
  }

  lemma PowOf32()
    ensures Pow2(32) == TWO32
  {
    assert Pow2(8) == 0x100;
    assert Pow2(16) == 0x1_0000;
    assert Pow2(24) == 0x100_0000;
    assert Pow2(32) == TWO32;
  }

  /** The value of an int converted to unsigned. */
  function Unsigned(n: int32): word {
    if n < 0 then n + TWO32 else n
  }

  /** The value of an unsigned int converted to int. */
  function Signed(n: word): int32 {
    Wrap(n)
  }

  /** The macro divRoundUp. */
  function DivRoundUp(n: nat, s: nat): (r: nat)
    requires s > 0
  {
    n / s + if n % s > 0 then 1 else 0
  }

  function IntBytes(n: int): (r: seq<byte>)
    ensures |r| == 4
  {
    var u := n % TWO32;
    [(u % 256) as byte, (u / 0x100 % 256) as byte, (u / 0x1_0000 % 256) as byte, (u / 0x100_0000) as byte]
  }

  function BytesNat(b: seq<byte>): (r: nat)
    requires |b| == 4
    ensures r < TWO32
  {
    b[0] as int + 0x100 * (b[1] as int) + 0x1_0000 * (b[2] as int) + 0x100_0000 * (b[3] as int)
  }

  function BytesInt(b: seq<byte>): (r: int)
    requires |b| == 4
    ensures IsInt32(r)
  {
    Wrap(BytesNat(b))
  }

  lemma BytesNatOfIntBytes(n: int)
    ensures BytesNat(IntBytes(n)) == n % TWO32
  {
    var u := n % TWO32;
    var v := u / 0x100;
    var w := v / 0x100;
    assert u / 0x1_0000 == w && u / 0x100_0000 == w / 0x100;
    assert u == u % 256 + 0x100 * v && v == v % 256 + 0x100 * w && w == w % 256 + 0x100 * (w / 0x100);
  }

  lemma BytesNatOfWordBytes(w: word)
    ensures BytesNat(IntBytes(w)) == w
  {
    BytesNatOfIntBytes(w);
  }

  /** Storing an int and loading it again gives its 32-bit value. */
  lemma BytesIntOfIntBytes(n: int)
    ensures BytesInt(IntBytes(n)) == Wrap(n)
  {
    BytesNatOfIntBytes(n);
  }

  // ---- arrays of ints and of unsigned ints, seen through a char pointer ----

  function IntsBytes(ws: seq<int>): (r: seq<byte>)
    ensures |r| == 4 * |ws|
  {
    seq(4 * |ws|, k requires 0 <= k < 4 * |ws| => IntBytes(ws[k / 4])[k % 4])
  }

  function BytesInts(b: seq<byte>): (r: seq<int32>)
    ensures |r| == |b| / 4
  {
    seq(|b| / 4, i requires 0 <= i < |b| / 4 => BytesInt(b[4 * i..4 * i + 4]))
  }

  function BytesWords(b: seq<byte>): (r: seq<word>)
    ensures |r| == |b| / 4
  {
    seq(|b| / 4, i requires 0 <= i < |b| / 4 => BytesNat(b[4 * i..4 * i + 4]))
  }

  lemma IntsBytesSlice(ws: seq<int>, i: nat)
    requires i < |ws|
    ensures IntsBytes(ws)[4 * i..4 * i + 4] == IntBytes(ws[i])
  {
  }

  /** Ints copied out as bytes and back are unchanged. */
  lemma BytesIntsOfIntsBytes(ws: seq<int32>)
    ensures BytesInts(IntsBytes(ws)) == ws
  {
    forall i | 0 <= i < |ws| ensures BytesInts(IntsBytes(ws))[i] == ws[i] {
      IntsBytesSlice(ws, i);
      BytesIntOfIntBytes(ws[i]);
    }
  }

  /** Unsigned ints copied out as bytes and back are unchanged. */
  lemma BytesWordsOfIntsBytes(ws: seq<word>)
    ensures BytesWords(IntsBytes(ws)) == ws
  {
    var b := IntsBytes(ws);
    forall i | 0 <= i < |ws| ensures BytesWords(b)[i] == ws[i] {
      IntsBytesSlice(ws, i);
      BytesNatOfWordBytes(ws[i]);
    }
  }
}
