/**
 The word-packed bitmap (userprog/bitmap.cc), used for disk sectors, physical
 frames and process slots.  Its abstract value is the finite set of marked bits.
 */
module BitMaps {
  import opened Words

  const BITS_IN_WORD: nat := 32

  // An unsigned int is a natural below 2^32; the three one-bit operations of the
  // source act on its binary digits, least significant first.

  /** w & (1 << k) */
  predicate TestBit(w: nat, k: nat) {
    if k == 0 then w % 2 == 1 else TestBit(w / 2, k - 1)
  }

  /** w | (1 << k) */
  function SetBit(w: nat, k: nat): nat {
    if k == 0 then w - w % 2 + 1 else 2 * SetBit(w / 2, k - 1) + w % 2
  }

  /** w & ~(1 << k) */
  function ResetBit(w: nat, k: nat): nat {
    if k == 0 then w - w % 2 else 2 * ResetBit(w / 2, k - 1) + w % 2
  }

  /** Setting or resetting a bit changes that bit of the word and no other. */
  lemma {:induction false} OneBit(w: nat, k: nat, j: nat)
    ensures TestBit(SetBit(w, k), j) <==> k == j || TestBit(w, j)
    ensures TestBit(ResetBit(w, k), j) <==> k != j && TestBit(w, j)
  {
    if k > 0 {
      assert SetBit(w, k) / 2 == SetBit(w / 2, k - 1);
      assert ResetBit(w, k) / 2 == ResetBit(w / 2, k - 1);
      if j > 0 {
        OneBit(w / 2, k - 1, j - 1);
      }
    }
  }

  /** As numbers: setting a clear bit adds its weight, resetting a set one takes it away. */
  lemma {:induction false} OneBitWeight(w: nat, k: nat)
    ensures SetBit(w, k) == w + if TestBit(w, k) then 0 else Pow2(k)
    ensures ResetBit(w, k) == w - if TestBit(w, k) then Pow2(k) else 0
  {
    if k > 0 {
      OneBitWeight(w / 2, k - 1);
    }
  }

  /** A word stays within n bits. */
  lemma {:induction false} OneBitBound(w: nat, k: nat, n: nat)
    requires k < n && w < Pow2(n)
    ensures SetBit(w, k) < Pow2(n) && ResetBit(w, k) < Pow2(n)
  {
    if k > 0 {
      OneBitBound(w / 2, k - 1, n - 1);
    }
  }

  lemma WordStaysWord(w: word, k: nat)
    requires k < BITS_IN_WORD
    ensures SetBit(w, k) < TWO32 && ResetBit(w, k) < TWO32
  {
    PowOf32();
    OneBitBound(w, k, 32);
  }

  predicate Bit(words: seq<nat>, i: nat)
    requires i / BITS_IN_WORD < |words|
  {
    TestBit(words[i / BITS_IN_WORD], i % BITS_IN_WORD)
  }

  /** The digits of a number whose low part has m of them. */
  lemma {:induction false} SplitBit(low: nat, high: nat, m: nat, k: nat)
    requires low < Pow2(m)
    ensures TestBit(low + Pow2(m) * high, k) <==> if k < m then TestBit(low, k) else TestBit(high, k - m)
    decreases m
  {
    if m > 0 {
      var w := low + Pow2(m) * high;
      var half := Pow2(m - 1) * high;
      assert w == low + 2 * half;
      assert w % 2 == low % 2 && w / 2 == low / 2 + half;
      if k > 0 {
        SplitBit(low / 2, high, m - 1, k - 1);
      }
    }
  }

  /** Bit j of a word is bit j % 8 of its byte j / 8. */
  lemma BitOfBytes(b: seq<byte>, j: nat)
    requires |b| == 4 && j < 32
    ensures TestBit(BytesNat(b), j) <==> TestBit(b[j / 8] as nat, j % 8)
  {
    var h1, h2 := b[1] as nat + 0x100 * (b[2] as nat + 0x100 * (b[3] as nat)), b[2] as nat + 0x100 * (b[3] as nat);
    assert Pow2(4) == 16;
    assert Pow2(8) == 0x100;
    assert BytesNat(b) == b[0] as nat + 0x100 * h1;
    SplitBit(b[0] as nat, h1, 8, j);
    if j >= 8 {
      SplitBit(b[1] as nat, h2, 8, j - 8);
    }
    if j >= 16 {
      SplitBit(b[2] as nat, b[3] as nat, 8, j - 16);
    }
  }

  /** The map as a file: sector k is in use exactly when bit k % 8 of byte k / 8 is set. */
  lemma MapLayout(b: seq<byte>, k: nat)
    requires |b| % 4 == 0 && k < 8 * |b|
    ensures k in MarkedBits(BytesWords(b), 8 * |b|) <==> TestBit(b[k / 8] as nat, k % 8)
  {
    var w, j := k / 32, k % 32;
    assert BytesWords(b)[w] == BytesNat(b[4 * w..4 * w + 4]);
    BitOfBytes(b[4 * w..4 * w + 4], j);
    assert k / 8 == 4 * w + j / 8 && k % 8 == j % 8;
  }

  ghost function MarkedBits(words: seq<nat>, n: nat): set<nat>
    requires n <= BITS_IN_WORD * |words|
  {
    set i: nat | i < n && Bit(words, i)
  }

  function MarkWord(words: seq<nat>, which: nat): (r: seq<nat>)
    requires which / BITS_IN_WORD < |words|
  {
    var w := which / BITS_IN_WORD;
    words[w := SetBit(words[w], which % BITS_IN_WORD)]
  }

  function ClearWord(words: seq<nat>, which: nat): (r: seq<nat>)
    requires which / BITS_IN_WORD < |words|
  {
    var w := which / BITS_IN_WORD;
    words[w := ResetBit(words[w], which % BITS_IN_WORD)]
  }

  lemma MarkWordBit(words: seq<nat>, which: nat, i: nat)
    requires which / BITS_IN_WORD < |words| && i / BITS_IN_WORD < |words|
    ensures Bit(MarkWord(words, which), i) <==> i == which || Bit(words, i)
  {
    OneBit(words[i / BITS_IN_WORD], which % BITS_IN_WORD, i % BITS_IN_WORD);
  }

  lemma ClearWordBit(words: seq<nat>, which: nat, i: nat)
    requires which / BITS_IN_WORD < |words| && i / BITS_IN_WORD < |words|
    ensures Bit(ClearWord(words, which), i) <==> i != which && Bit(words, i)
  {
    OneBit(words[i / BITS_IN_WORD], which % BITS_IN_WORD, i % BITS_IN_WORD);
  }

  lemma MarkWordSet(words: seq<nat>, n: nat, which: nat)
    requires which < n <= BITS_IN_WORD * |words|
    ensures MarkedBits(MarkWord(words, which), n) == MarkedBits(words, n) + {which}
  {
    forall i: nat | i < n
      ensures Bit(MarkWord(words, which), i) <==> i == which || Bit(words, i)
    {
      MarkWordBit(words, which, i);
    }
  }

  lemma ClearWordSet(words: seq<nat>, n: nat, which: nat)
    requires which < n <= BITS_IN_WORD * |words|
    ensures MarkedBits(ClearWord(words, which), n) == MarkedBits(words, n) - {which}
  {
    forall i: nat | i < n
      ensures Bit(ClearWord(words, which), i) <==> i != which && Bit(words, i)
    {
      ClearWordBit(words, which, i);
    }
  }

  /** The naturals below n that are not in s. */
  ghost function Clear(s: set<nat>, n: nat): set<nat> {
    set i: nat | i < n && i !in s
  }

  lemma ClearSplit(s: set<nat>, n: nat)
    ensures |Clear(s, n + 1)| == |Clear(s, n)| + if n in s then 0 else 1
  {
    assert Clear(s, n + 1) == Clear(s, n) + if n in s then {} else {n};
  }

  /** The clear bits and the marked ones make up all n. */
  lemma {:induction false} ClearCount(s: set<nat>, n: nat)
    requires forall i <- s :: i < n
    ensures |Clear(s, n)| == n - |s|
  {
    if n == 0 {
      assert s == {} && Clear(s, 0) == {};
    } else {
      var r := s - {n - 1};
      ClearCount(r, n - 1);
      assert Clear(s, n - 1) == Clear(r, n - 1);
      assert s == r + if n - 1 in s then {n - 1} else {};
      ClearSplit(s, n - 1);
    }
  }

  lemma ClearAfterMark(s: set<nat>, n: nat, x: nat)
    requires x < n && x !in s
    ensures Clear(s + {x}, n) == Clear(s, n) - {x}
    ensures |Clear(s + {x}, n)| == |Clear(s, n)| - 1
  {
    assert Clear(s, n) == Clear(s + {x}, n) + {x};
  }

  /** The least natural below n outside s, or -1 when there is none. */
  ghost predicate IsLeastClear(s: set<nat>, n: nat, r: int) {
    && (r == -1 <==> Clear(s, n) == {})
    && (r != -1 ==> 0 <= r < n && r !in s && forall i: nat :: i < r ==> i in s)
  }

  /** While some bit is clear, a search succeeds and uses up exactly one clear bit. */
  lemma FindUsesOne(s: set<nat>, n: nat, r: int)
    requires IsLeastClear(s, n, r) && |Clear(s, n)| > 0
    ensures 0 <= r < n && r !in s
    ensures |Clear(s + {r as nat}, n)| == |Clear(s, n)| - 1
  {
    assert Clear(s, n) != {};
    ClearAfterMark(s, n, r);
  }

  class BitMap {
    const numBits: nat
    const words: array<word>

    ghost predicate Valid() {
      words.Length == DivRoundUp(numBits, BITS_IN_WORD)
    }

    ghost function Marked(): (s: set<nat>)
      requires Valid()
      reads words
      ensures forall i <- s :: i < numBits
    {
      MarkedBits(words[..], numBits)
    }

    /** Every bit starts clear, whatever the fresh words held. */
    constructor (nitems: nat)
      ensures Valid() && numBits == nitems && Marked() == {} && fresh(words)
    {
      numBits := nitems;
      words := new word[DivRoundUp(nitems, BITS_IN_WORD)];
      new;
      var i := 0;
      while i < numBits
        invariant i <= numBits && Valid()
        invariant forall k: nat :: k < i ==> !Bit(words[..], k)
        modifies words
      {
        ghost var was := words[..];
        ClearBit(i);
        forall k: nat | k <= i ensures !Bit(words[..], k) {
          ClearWordBit(was, i, k);
        }
        i := i + 1;
      }
    }

    method Mark(which: int)
      requires Valid() && 0 <= which < numBits
      modifies words
      ensures words[..] == MarkWord(old(words[..]), which)
      ensures Marked() == old(Marked()) + {which}
    {
      MarkWordSet(words[..], numBits, which);
      WordStaysWord(words[which / BITS_IN_WORD], which % BITS_IN_WORD);
      words[which / BITS_IN_WORD] := SetBit(words[which / BITS_IN_WORD], which % BITS_IN_WORD);
      assert words[..] == MarkWord(old(words[..]), which);
    }

    method ClearBit(which: int)
      requires Valid() && 0 <= which < numBits
      modifies words
      ensures words[..] == ClearWord(old(words[..]), which)
      ensures Marked() == old(Marked()) - {which}
    {
      ClearWordSet(words[..], numBits, which);
      WordStaysWord(words[which / BITS_IN_WORD], which % BITS_IN_WORD);
      words[which / BITS_IN_WORD] := ResetBit(words[which / BITS_IN_WORD], which % BITS_IN_WORD);
      assert words[..] == ClearWord(old(words[..]), which);
    }

    method Test(which: int) returns (r: bool)
      requires Valid() && 0 <= which < numBits
      ensures r <==> which in Marked()
    {
      r := TestBit(words[which / BITS_IN_WORD], which % BITS_IN_WORD);
      assert r == Bit(words[..], which);
    }

    /** Allocates the least clear bit. */
    method Find() returns (r: int)
      requires Valid()
      modifies words
      ensures IsLeastClear(old(Marked()), numBits, r)
      ensures Marked() == if r == -1 then old(Marked()) else old(Marked()) + {r as nat}
    {
      var i := 0;
      while i < numBits
        invariant 0 <= i <= numBits
        invariant forall k: nat :: k < i ==> k in Marked()
        invariant words[..] == old(words[..])
      {
        var marked := Test(i);
        if !marked {
          assert i in Clear(Marked(), numBits);
          Mark(i);
          return i;
        }
        i := i + 1;
      }
      assert Clear(Marked(), numBits) == {};
      return -1;
    }

    method NumClear() returns (count: nat)
      requires Valid()
      ensures count == |Clear(Marked(), numBits)|
    {
      count := 0;
      var i := 0;
      while i < numBits
        invariant i <= numBits
        invariant count == |Clear(Marked(), i)|
      {
        ClearSplit(Marked(), i);
        var marked := Test(i);
        if !marked {
          count := count + 1;
        }
        i := i + 1;
      }
    }
  }
}
