/** Bytes as numbers, and their bits. */
module Bytes {
  newtype byte = x: int | 0 <= x < 256

  function Half(x: bv32): bv32 { x >> (1 as bv6) }

  function Twice(x: bv32): bv32 { x << (1 as bv6) }

  /** The bits of a number, and the number with the given low k bits. */
  function BitsOf(n: nat): bv32 {
    if n == 0 then 0 else if n % 2 == 1 then Twice(BitsOf(n / 2)) | 1 else Twice(BitsOf(n / 2))
  }

  function NumberOf(x: bv32, k: nat): nat {
    if k == 0 then 0 else 2 * NumberOf(Half(x), k - 1) + if x & 1 == 1 then 1 else 0
  }

  /** x has no bits beyond the low k. */
  predicate Fits(x: bv32, k: nat) {
    if k == 0 then x == 0 else Fits(Half(x), k - 1)
  }

  lemma Rebuild(x: bv32)
    ensures x & 1 == 1 ==> Twice(Half(x)) | 1 == x
    ensures x & 1 != 1 ==> Twice(Half(x)) == x
  {
  }

  lemma Halves(x: bv32)
    requires x < 256
    ensures Half(Twice(x)) == x && Half(Twice(x) | 1) == x
  {
  }

  lemma Fits8(x: bv32)
    ensures Half(Half(Half(Half(Half(Half(Half(Half(x)))))))) == 0 <==> x < 256
  {
  }

  lemma {:induction false} FitsByte(x: bv32)
    ensures Fits(x, 8) <==> x < 256
  {
    hide Half;
    var x2, x4, x6 := Half(Half(x)), Half(Half(Half(Half(x)))), Half(Half(Half(Half(Half(Half(x))))));
    assert Fits(x, 8) <==> Fits(x2, 6);
    assert Fits(x2, 6) <==> Fits(x4, 4);
    assert Fits(x4, 4) <==> Fits(x6, 2);
    assert Fits(x6, 2) <==> Fits(Half(x6), 1);
    assert Fits(Half(x6), 1) <==> Fits(Half(Half(x6)), 0);
    Fits8(x);
  }

  lemma {:induction false} OddBits(k: nat)
    ensures BitsOf(2 * k + 1) == Twice(BitsOf(k)) | 1
  {
    hide Twice;
    var n := 2 * k + 1;
    assert n / 2 == k && n % 2 == 1;
  }

  lemma {:induction false} EvenBits(k: nat)
    ensures BitsOf(2 * k) == Twice(BitsOf(k))
  {
    assert Twice(0) == 0;
    hide Twice;
    var n := 2 * k;
    assert n / 2 == k && n % 2 == 0;
  }

  lemma {:induction false} BitsOfNext(x: bv32, h: bv32, n: nat, k: nat)
    requires h == Half(x) && BitsOf(k) == h
    requires n == if x & 1 == 1 then 2 * k + 1 else 2 * k
    ensures BitsOf(n) == x
  {
    if x & 1 == 1 {
      OddBits(k);
    } else {
      EvenBits(k);
    }
    Rebuild(x);
  }

  lemma {:induction false} BitsOfNumber(x: bv32, k: nat)
    requires Fits(x, k)
    ensures BitsOf(NumberOf(x, k)) == x
  {
    if k > 0 {
      BitsOfNumber(Half(x), k - 1);
      BitsOfNext(x, Half(x), NumberOf(x, k), NumberOf(Half(x), k - 1));
    }
  }

  function Pow2(k: nat): nat { if k == 0 then 1 else 2 * Pow2(k - 1) }

  lemma {:induction false} NumberBound(x: bv32, k: nat)
    ensures NumberOf(x, k) < Pow2(k)
  {
    if k > 0 {
      NumberBound(Half(x), k - 1);
    }
  }

  lemma {:induction false} FitsWider(x: bv32, k: nat)
    requires Fits(x, k) && k <= 8
    ensures Fits(x, 8)
    decreases 8 - k
  {
    if k < 8 {
      FitsOneWider(x, k);
      FitsWider(x, k + 1);
    }
  }

  lemma {:induction false} FitsOneWider(x: bv32, k: nat)
    requires Fits(x, k)
    ensures Fits(x, k + 1)
  {
    if k > 0 {
      FitsOneWider(Half(x), k - 1);
    }
  }

  lemma {:induction false} BitsFit(n: nat, k: nat)
    requires n < Pow2(k) && k <= 8
    ensures Fits(BitsOf(n), k)
  {
    if k > 0 {
      var h := n / 2;
      var x := BitsOf(h);
      BitsFit(h, k - 1);
      FitsWider(x, k - 1);
      FitsByte(x);
      Halves(x);
      assert Half(BitsOf(n)) == x;
    }
  }

  /** The bits of a byte. */
  function Bits(b: byte): (x: bv32)
    ensures x < 256
  {
    assert Pow2(8) == 256;
    BitsFit(b as nat, 8);
    FitsByte(BitsOf(b as nat));
    BitsOf(b as nat)
  }

  /** The byte with the given bits. */
  function Byte(x: bv32): (b: byte)
    requires x < 256
    ensures Bits(b) == x
  {
    assert Pow2(8) == 256;
    NumberBound(x, 8);
    FitsByte(x);
    BitsOfNumber(x, 8);
    NumberOf(x, 8) as byte
  }

  lemma LowBit(x: bv32)
    ensures (Twice(x) | 1) & 1 == 1 && Twice(x) & 1 == 0
  {
  }

  lemma {:induction false} NumberOfBits(n: nat, k: nat)
    requires n < Pow2(k) && k <= 8
    ensures NumberOf(BitsOf(n), k) == n
  {
    if k > 0 {
      var h := n / 2;
      var x := BitsOf(h);
      NumberOfBits(h, k - 1);
      BitsFit(h, k - 1);
      FitsWider(x, k - 1);
      FitsByte(x);
      Halves(x);
      LowBit(x);
      if n % 2 == 1 {
        OddBits(h);
      } else {
        EvenBits(h);
      }
      hide Twice, Half;
    }
  }

  lemma ByteOfBits(b: byte)
    ensures Byte(Bits(b)) == b
  {
    hide NumberOf, BitsOf;
    assert Pow2(8) == 256;
    NumberOfBits(b as nat, 8);
  }

  /** A 32-bit word laid out as on a little-endian host. */
  function EncodeFixed32(w: bv32): (bs: seq<byte>)
    ensures |bs| == 4
  {
    [Byte(w & 0xff), Byte((w >> 8) & 0xff), Byte((w >> 16) & 0xff), Byte(w >> 24)]
  }

  function DecodeFixed32(bs: seq<byte>): bv32
    requires |bs| == 4
  {
    Bits(bs[0]) | (Bits(bs[1]) << 8) | (Bits(bs[2]) << 16) | (Bits(bs[3]) << 24)
  }

  lemma {:induction false} DecodeEncodeFixed32(w: bv32)
    ensures DecodeFixed32(EncodeFixed32(w)) == w
  {
    JoinBytes(w);
  }

  lemma JoinBytes(w: bv32)
    ensures (w & 0xff) | (((w >> 8) & 0xff) << 8) | (((w >> 16) & 0xff) << 16) | ((w >> 24) << 24) == w
  {
  }

  lemma {:induction false} EncodeDecodeFixed32(bs: seq<byte>)
    requires |bs| == 4
    ensures EncodeFixed32(DecodeFixed32(bs)) == bs
  {
    hide Byte, Bits;
    SplitWord(Bits(bs[0]), Bits(bs[1]), Bits(bs[2]), Bits(bs[3]));
    ByteOfBits(bs[0]);
    ByteOfBits(bs[1]);
    ByteOfBits(bs[2]);
    ByteOfBits(bs[3]);
  }

  lemma SplitWord(a: bv32, b: bv32, c: bv32, d: bv32)
    requires a < 256 && b < 256 && c < 256 && d < 256
    ensures var w := a | (b << 8) | (c << 16) | (d << 24);
      w & 0xff == a && (w >> 8) & 0xff == b && (w >> 16) & 0xff == c && w >> 24 == d
  {
  }

  /** The length of the longest common prefix. */
  function CommonPrefix(a: seq<byte>, b: seq<byte>): (n: nat)
    ensures n <= |a| && n <= |b| && a[..n] == b[..n]
    ensures n < |a| && n < |b| ==> a[n] != b[n]
  {
    if a == [] || b == [] || a[0] != b[0] then 0
    else
      var n := 1 + CommonPrefix(a[1..], b[1..]);
      assert a[..n] == [a[0]] + a[1..][..n - 1];
      assert b[..n] == [b[0]] + b[1..][..n - 1];
      n
  }

  lemma {:induction false} PrefixIs(a: seq<byte>, b: seq<byte>, n: nat)
    requires n <= |a| && n <= |b| && a[..n] == b[..n]
    requires n < |a| && n < |b| ==> a[n] != b[n]
    ensures CommonPrefix(a, b) == n
  {
    var m := CommonPrefix(a, b);
    forall k | 0 <= k < n
      ensures a[k] == b[k]
    {
      assert a[..n][k] == b[..n][k];
    }
    forall k | 0 <= k < m
      ensures a[k] == b[k]
    {
      assert a[..m][k] == b[..m][k];
    }
  }
}
