/** CRC32C: the bitwise definition, and the table-driven 4-stride form that must equal it (crc32c.cc). */
module Crc32c {
  import opened Bytes

  // The Castagnoli polynomial, bit-reversed.
  const POLY: bv32 := 0x82f63b78
  const ONES: bv32 := 0xffffffff
  const MASK_DELTA: bv32 := 0xa282ead8

  function Xor(a: bv32, b: bv32): bv32 { a ^ b }

  /** The remainder after one zero bit, and after n zero bytes. */
  function ZeroBit(x: bv32): bv32 { if x & 1 == 1 then Xor(Half(x), POLY) else Half(x) }

  function ZeroByte(x: bv32): bv32 { ZeroBit(ZeroBit(ZeroBit(ZeroBit(ZeroBit(ZeroBit(ZeroBit(ZeroBit(x)))))))) }

  function Zeros(x: bv32, n: nat): bv32
    decreases n
  {
    if n == 0 then x else Zeros(ZeroByte(x), n - 1)
  }

  /** The remainder after the bytes of data. */
  function Fold(l: bv32, data: seq<byte>): bv32
    decreases |data|
  {
    if data == [] then l else Fold(ZeroByte(Xor(l, Bits(data[0]))), data[1..])
  }

  function Extend(crc: bv32, data: seq<byte>): bv32 { Xor(Fold(Xor(crc, ONES), data), ONES) }

  function Value(data: seq<byte>): bv32 { Extend(0, data) }

  function Rotated(crc: bv32): bv32 { (crc >> 15) | (crc << 17) }

  function RotatedBack(rot: bv32): bv32 { (rot >> 17) | (rot << 15) }

  function Mask(crc: bv32): bv32 { Rotated(crc) + MASK_DELTA }

  function Unmask(masked: bv32): bv32 {
    var rot := masked - MASK_DELTA;
    RotatedBack(rot)
  }

  lemma UnmaskMask(crc: bv32)
    ensures Unmask(Mask(crc)) == crc
  {
    hide Rotated, RotatedBack;
    Cancels(Rotated(crc), MASK_DELTA);
    RotatesBack(crc);
  }

  lemma MaskUnmask(masked: bv32)
    ensures Mask(Unmask(masked)) == masked
  {
    hide Rotated, RotatedBack;
    Cancels(masked, MASK_DELTA);
    RotatesBack(masked - MASK_DELTA);
  }

  lemma Cancels(a: bv32, b: bv32)
    ensures (a + b) - b == a && (a - b) + b == a
  {
  }

  lemma RotatesBack(crc: bv32)
    ensures RotatedBack(Rotated(crc)) == crc && Rotated(RotatedBack(crc)) == crc
  {
  }

  lemma {:induction false} FoldAppend(l: bv32, a: seq<byte>, b: seq<byte>)
    ensures Fold(l, a + b) == Fold(Fold(l, a), b)
    decreases |a|
  {
    hide Xor, ZeroByte, Bits;
    if a == [] {
      assert a + b == b;
    } else {
      assert (a + b)[1..] == a[1..] + b;
      FoldAppend(ZeroByte(Xor(l, Bits(a[0]))), a[1..], b);
    }
  }

  /** The checksum of a concatenation extends the checksum of its first part. */
  lemma {:induction false} ExtendAppend(crc: bv32, a: seq<byte>, b: seq<byte>)
    ensures Extend(Extend(crc, a), b) == Extend(crc, a + b)
  {
    hide Xor, Fold;
    FoldAppend(Xor(crc, ONES), a, b);
    XorCancels(Fold(Xor(crc, ONES), a), ONES);
  }

  lemma XorCancels(x: bv32, y: bv32)
    ensures Xor(Xor(x, y), y) == x
  {
  }

  // ----- The remainder is linear -----

  lemma HalfXor(x: bv32, y: bv32)
    ensures Half(Xor(x, y)) == Xor(Half(x), Half(y))
  {
  }

  lemma LowXor(x: bv32, y: bv32)
    ensures Xor(x, y) & 1 == 1 <==> !(x & 1 == 1 <==> y & 1 == 1)
  {
  }

  lemma XorSwap(a: bv32, b: bv32, p: bv32)
    ensures Xor(Xor(a, p), b) == Xor(Xor(a, b), p)
    ensures Xor(a, Xor(b, p)) == Xor(Xor(a, b), p)
    ensures Xor(Xor(a, p), Xor(b, p)) == Xor(a, b)
  {
  }

  lemma {:induction false} BitLinear(x: bv32, y: bv32)
    ensures ZeroBit(Xor(x, y)) == Xor(ZeroBit(x), ZeroBit(y))
  {
    HalfXor(x, y);
    LowXor(x, y);
    XorSwap(Half(x), Half(y), POLY);
    hide Xor, Half;
  }

  lemma {:induction false} ByteLinear(x: bv32, y: bv32)
    ensures ZeroByte(Xor(x, y)) == Xor(ZeroByte(x), ZeroByte(y))
  {
    hide ZeroBit, Xor;
    var x1, y1 := ZeroBit(x), ZeroBit(y);
    var x2, y2 := ZeroBit(x1), ZeroBit(y1);
    var x3, y3 := ZeroBit(x2), ZeroBit(y2);
    var x4, y4 := ZeroBit(x3), ZeroBit(y3);
    var x5, y5 := ZeroBit(x4), ZeroBit(y4);
    var x6, y6 := ZeroBit(x5), ZeroBit(y5);
    var x7, y7 := ZeroBit(x6), ZeroBit(y6);
    BitLinear(x, y);
    BitLinear(x1, y1);
    BitLinear(x2, y2);
    BitLinear(x3, y3);
    BitLinear(x4, y4);
    BitLinear(x5, y5);
    BitLinear(x6, y6);
    BitLinear(x7, y7);
  }

  lemma {:induction false} ZerosLinear(x: bv32, y: bv32, n: nat)
    ensures Zeros(Xor(x, y), n) == Xor(Zeros(x, n), Zeros(y, n))
    decreases n
  {
    hide Xor, ZeroByte;
    if n > 0 {
      ByteLinear(x, y);
      ZerosLinear(ZeroByte(x), ZeroByte(y), n - 1);
    }
  }

  lemma {:induction false} ZerosAdd(x: bv32, m: nat, n: nat)
    ensures Zeros(Zeros(x, m), n) == Zeros(x, m + n)
    decreases m
  {
    hide ZeroByte;
    if m > 0 {
      ZerosAdd(ZeroByte(x), m - 1, n);
    }
  }

  // ----- Tables -----

  function Low(x: bv32): bv32 { x & 0xff }

  function Shr8(x: bv32): bv32 { x >> (8 as bv6) }

  function Shl8(x: bv32): bv32 { x << (8 as bv6) }

  /** kByteExtensionTable: each byte advanced by one zero byte. */
  function ByteTable(c: bv32): bv32
    requires c < 256
  {
    ZeroByte(c)
  }

  /** kStrideExtensionTable k: byte k from the top of a word, advanced by 16 zero bytes. */
  function StrideTable(k: nat, c: bv32): bv32
    requires k < 4 && c < 256
  {
    Zeros(c, 13 + k)
  }

  /** A remainder whose low byte is zero just moves down. */
  lemma ShiftDown(x: bv32)
    requires Low(x) == 0
    ensures ZeroByte(x) == Shr8(x)
  {
  }

  lemma SplitLow(x: bv32)
    ensures x == Xor(x & 0xffffff00, Low(x))
    ensures Low(x & 0xffffff00) == 0 && Shr8(x & 0xffffff00) == Shr8(x)
    ensures Low(x) < 256
  {
  }

  lemma LowBytes(x: bv32, b: bv32)
    requires b < 256
    ensures Xor(Low(x), b) < 256
  {
  }

  /** One table step is one byte of the fold. */
  lemma {:induction false} TableStep(l: bv32, b: bv32)
    requires b < 256
    ensures Xor(Low(l), b) < 256
    ensures Xor(ByteTable(Xor(Low(l), b)), Shr8(l)) == ZeroByte(Xor(l, b))
  {
    var high := l & 0xffffff00;
    SplitLow(l);
    LowBytes(l, b);
    ShiftDown(high);
    ByteLinear(Xor(Low(l), b), high);
    XorSwap(high, b, Low(l));
    XorCommutes(high, Xor(b, Low(l)));
    XorCommutes(b, Low(l));
    hide Xor, ZeroByte, Low, Shr8;
  }

  lemma XorCommutes(a: bv32, b: bv32)
    ensures Xor(a, b) == Xor(b, a)
  {
  }

  /** A byte below the bytes of rest. */
  function Push(b: bv32, rest: bv32): bv32 { b | Shl8(rest) }

  lemma PushSplits(b: bv32, rest: bv32)
    requires b < 256 && rest < 0x1000000
    ensures Push(b, rest) == Xor(b, Shl8(rest))
    ensures Low(Shl8(rest)) == 0 && Shr8(Shl8(rest)) == rest
  {
  }

  /** A word enters the fold one byte at a time, low byte first. */
  lemma {:induction false} PeelByte(l: bv32, b: bv32, rest: bv32)
    requires b < 256 && rest < 0x1000000
    ensures ZeroByte(Xor(l, Push(b, rest))) == Xor(ZeroByte(Xor(l, b)), rest)
  {
    PushSplits(b, rest);
    ShiftDown(Shl8(rest));
    XorAssoc(l, b, Shl8(rest));
    ByteLinear(Xor(l, b), Shl8(rest));
    hide Xor, ZeroByte, Low, Shr8, Shl8, Push;
  }

  lemma XorAssoc(a: bv32, b: bv32, c: bv32)
    ensures Xor(a, Xor(b, c)) == Xor(Xor(a, b), c)
  {
  }

  lemma PushBounds(b1: bv32, b2: bv32, b3: bv32)
    requires b1 < 256 && b2 < 256 && b3 < 256
    ensures b3 < 0x1000000 && Push(b2, b3) < 0x1000000 && Push(b1, Push(b2, b3)) < 0x1000000
  {
  }

  lemma JoinBits(b0: bv32, b1: bv32, b2: bv32, b3: bv32)
    requires b0 < 256 && b1 < 256 && b2 < 256 && b3 < 256
    ensures b0 | (b1 << 8) | (b2 << 16) | (b3 << 24) == Push(b0, Push(b1, Push(b2, b3)))
  {
  }

  lemma JoinIsDecode(w: seq<byte>)
    requires |w| == 4
    ensures DecodeFixed32(w) == Push(Bits(w[0]), Push(Bits(w[1]), Push(Bits(w[2]), Bits(w[3]))))
  {
    JoinBits(Bits(w[0]), Bits(w[1]), Bits(w[2]), Bits(w[3]));
  }

  lemma {:induction false} FourBytes(l: bv32, b0: bv32, b1: bv32, b2: bv32, b3: bv32)
    requires b0 < 256 && b1 < 256 && b2 < 256 && b3 < 256
    ensures ZeroByte(Xor(ZeroByte(Xor(ZeroByte(Xor(ZeroByte(Xor(l, b0)), b1)), b2)), b3))
         == ZeroByte(ZeroByte(ZeroByte(ZeroByte(Xor(l, Push(b0, Push(b1, Push(b2, b3))))))))
  {
    hide Xor, ZeroByte, Push;
    var l1 := ZeroByte(Xor(l, b0));
    PushBounds(b1, b2, b3);
    PeelByte(l, b0, Push(b1, Push(b2, b3)));
    PeelByte(l1, b1, Push(b2, b3));
    PeelByte(ZeroByte(Xor(l1, b1)), b2, b3);
  }

  lemma {:induction false} ZerosFour(x: bv32)
    ensures Zeros(x, 4) == ZeroByte(ZeroByte(ZeroByte(ZeroByte(x))))
  {
    hide ZeroByte;
    assert Zeros(x, 4) == Zeros(ZeroByte(ZeroByte(x)), 2);
  }

  lemma {:induction false} FoldFour(l: bv32, w: seq<byte>)
    requires |w| == 4
    ensures Fold(l, w) == ZeroByte(Xor(ZeroByte(Xor(ZeroByte(Xor(ZeroByte(Xor(l, Bits(w[0]))), Bits(w[1]))),
      Bits(w[2]))), Bits(w[3])))
  {
    hide ZeroByte, Xor, Bits;
    assert w[1..][1..] == w[2..] && w[2..][1..] == w[3..] && w[3..][1..] == [];
    var l1 := ZeroByte(Xor(l, Bits(w[0])));
    var l2 := ZeroByte(Xor(l1, Bits(w[1])));
    var l3 := ZeroByte(Xor(l2, Bits(w[2])));
    assert Fold(l, w) == Fold(l1, w[1..]);
    assert Fold(l1, w[1..]) == Fold(l2, w[2..]);
    assert Fold(l2, w[2..]) == Fold(l3, w[3..]);
    assert Fold(l3, w[3..]) == Fold(ZeroByte(Xor(l3, Bits(w[3]))), []);
  }

  /** A word enters the fold at once. */
  lemma {:induction false} FoldWord(l: bv32, w: seq<byte>)
    requires |w| == 4
    ensures Fold(l, w) == Zeros(Xor(l, DecodeFixed32(w)), 4)
  {
    hide *;
    FoldFour(l, w);
    JoinIsDecode(w);
    FourBytes(l, Bits(w[0]), Bits(w[1]), Bits(w[2]), Bits(w[3]));
    ZerosFour(Xor(l, DecodeFixed32(w)));
  }

  function ByteAt(c: bv32, i: nat): (b: bv32)
    requires i < 4
    ensures b < 256
  {
    if i == 0 then c & 0xff else if i == 1 then (c >> 8) & 0xff else if i == 2 then (c >> 16) & 0xff else c >> 24
  }

  lemma BytesOfWord(c: bv32)
    ensures c == Push(ByteAt(c, 0), Push(ByteAt(c, 1), Push(ByteAt(c, 2), ByteAt(c, 3))))
  {
  }

  /** The four stride tables together advance a word by 16 zero bytes. */
  function Stride(c: bv32): bv32 {
    Xor(Xor(Xor(StrideTable(3, ByteAt(c, 0)), StrideTable(2, ByteAt(c, 1))), StrideTable(1, ByteAt(c, 2))),
      StrideTable(0, ByteAt(c, 3)))
  }

  lemma {:induction false} ShiftInto(b: bv32, rest: bv32, n: nat)
    requires b < 256 && rest < 0x1000000 && n > 0
    ensures Zeros(Push(b, rest), n) == Xor(Zeros(b, n), Zeros(rest, n - 1))
  {
    PushSplits(b, rest);
    ShiftDown(Shl8(rest));
    ZerosLinear(b, Shl8(rest), n);
    hide Shl8, Shr8, ZeroByte, Low, Xor, Push;
  }

  lemma {:induction false} StrideIs(c: bv32)
    ensures Stride(c) == Zeros(c, 16)
  {
    hide Push, Xor, ByteAt, Zeros;
    var b0, b1, b2, b3 := ByteAt(c, 0), ByteAt(c, 1), ByteAt(c, 2), ByteAt(c, 3);
    BytesOfWord(c);
    PushBounds(b1, b2, b3);
    ShiftInto(b0, Push(b1, Push(b2, b3)), 16);
    ShiftInto(b1, Push(b2, b3), 15);
    ShiftInto(b2, b3, 14);
    XorAssoc(Zeros(b0, 16), Zeros(b1, 15), Xor(Zeros(b2, 14), Zeros(b3, 13)));
    XorAssoc(Xor(Zeros(b0, 16), Zeros(b1, 15)), Zeros(b2, 14), Zeros(b3, 13));
  }

  // ----- The four strides -----

  /** What the four partial remainders stand for. */
  function Combine(c0: bv32, c1: bv32, c2: bv32, c3: bv32): bv32 {
    Zeros(Xor(Zeros(Xor(Zeros(Xor(Zeros(c0, 4), c1), 4), c2), 4), c3), 4)
  }

  lemma {:induction false} CombineIs(c0: bv32, c1: bv32, c2: bv32, c3: bv32)
    ensures Combine(c0, c1, c2, c3) == Xor(Xor(Xor(Zeros(c0, 16), Zeros(c1, 12)), Zeros(c2, 8)), Zeros(c3, 4))
  {
    hide Xor, Zeros;
    ZerosLinear(Zeros(c0, 4), c1, 4);
    ZerosAdd(c0, 4, 4);
    var d1 := Xor(Zeros(c0, 8), Zeros(c1, 4));
    ZerosLinear(d1, c2, 4);
    ZerosLinear(Zeros(c0, 8), Zeros(c1, 4), 4);
    ZerosAdd(c0, 8, 4);
    ZerosAdd(c1, 4, 4);
    var d2 := Xor(Xor(Zeros(c0, 12), Zeros(c1, 8)), Zeros(c2, 4));
    ZerosLinear(d2, c3, 4);
    ZerosLinear(Xor(Zeros(c0, 12), Zeros(c1, 8)), Zeros(c2, 4), 4);
    ZerosLinear(Zeros(c0, 12), Zeros(c1, 8), 4);
    ZerosAdd(c0, 12, 4);
    ZerosAdd(c1, 8, 4);
    ZerosAdd(c2, 4, 4);
  }

  /** One word: the oldest partial remainder takes it and becomes the youngest. */
  lemma {:induction false} StepOne(c0: bv32, c1: bv32, c2: bv32, c3: bv32, w: bv32)
    ensures Combine(c1, c2, c3, Xor(w, Stride(c0))) == Zeros(Xor(Combine(c0, c1, c2, c3), w), 4)
  {
    hide Xor, Zeros, Combine, Stride;
    StrideIs(c0);
    CombineIs(c0, c1, c2, c3);
    CombineIs(c1, c2, c3, Xor(w, Zeros(c0, 16)));
    ZerosLinear(w, Zeros(c0, 16), 4);
    ZerosAdd(c0, 16, 4);
    var a, b, c, d := Zeros(c0, 16), Zeros(c1, 12), Zeros(c2, 8), Zeros(c3, 4);
    ZerosLinear(Xor(Xor(Xor(a, b), c), d), w, 4);
    ZerosLinear(Xor(Xor(a, b), c), d, 4);
    ZerosLinear(Xor(a, b), c, 4);
    ZerosLinear(a, b, 4);
    ZerosAdd(c1, 12, 4);
    ZerosAdd(c2, 8, 4);
    ZerosAdd(c3, 4, 4);
    Rotate5(Zeros(c0, 20), Zeros(c1, 16), Zeros(c2, 12), Zeros(c3, 8), Zeros(w, 4));
  }

  lemma {:induction false} Rotate5(a: bv32, b: bv32, c: bv32, d: bv32, w: bv32)
    ensures Xor(Xor(Xor(b, c), d), Xor(w, a)) == Xor(Xor(Xor(Xor(a, b), c), d), w)
  {
    hide Xor;
    XorAssoc(a, b, c);
    XorAssoc(a, Xor(b, c), d);
    XorCommutes(a, Xor(Xor(b, c), d));
    XorCommutes(w, a);
    XorAssoc(Xor(Xor(b, c), d), a, w);
  }

  /** A 16-byte swath is four words, one to each partial remainder in turn. */
  lemma {:induction false} StepFour(c0: bv32, c1: bv32, c2: bv32, c3: bv32, w0: bv32, w1: bv32, w2: bv32, w3: bv32)
    ensures Combine(Xor(w0, Stride(c0)), Xor(w1, Stride(c1)), Xor(w2, Stride(c2)), Xor(w3, Stride(c3)))
         == Zeros(Xor(Zeros(Xor(Zeros(Xor(Zeros(Xor(Combine(c0, c1, c2, c3), w0), 4), w1), 4), w2), 4), w3), 4)
  {
    hide Xor, Zeros, Combine, Stride;
    var d0, d1, d2 := Xor(w0, Stride(c0)), Xor(w1, Stride(c1)), Xor(w2, Stride(c2));
    StepOne(c0, c1, c2, c3, w0);
    StepOne(c1, c2, c3, d0, w1);
    StepOne(c2, c3, d0, d1, w2);
    StepOne(c3, d0, d1, d2, w3);
  }

  lemma {:induction false} FoldByte(l0: bv32, buf: seq<byte>, p: nat)
    requires p < |buf|
    ensures Fold(l0, buf[..p + 1]) == ZeroByte(Xor(Fold(l0, buf[..p]), Bits(buf[p])))
  {
    hide ZeroByte, Xor, Bits;
    FoldAppend(l0, buf[..p], [buf[p]]);
    assert buf[..p + 1] == buf[..p] + [buf[p]];
    var l := ZeroByte(Xor(Fold(l0, buf[..p]), Bits(buf[p])));
    assert Fold(Fold(l0, buf[..p]), [buf[p]]) == Fold(l, []);
  }

  lemma {:induction false} FoldNextWord(l0: bv32, buf: seq<byte>, p: nat)
    requires p + 4 <= |buf|
    ensures Fold(l0, buf[..p + 4]) == Zeros(Xor(Fold(l0, buf[..p]), WordAt(buf, p)), 4)
  {
    hide Zeros, Xor, Fold, DecodeFixed32;
    FoldAppend(l0, buf[..p], buf[p..p + 4]);
    assert buf[..p + 4] == buf[..p] + buf[p..p + 4];
    FoldWord(Fold(l0, buf[..p]), buf[p..p + 4]);
  }

  lemma {:induction false} FoldNextSwath(l0: bv32, buf: seq<byte>, p: nat)
    requires p + 16 <= |buf|
    ensures Fold(l0, buf[..p + 16]) ==
      Zeros(Xor(Zeros(Xor(Zeros(Xor(Zeros(Xor(Fold(l0, buf[..p]), WordAt(buf, p)), 4), WordAt(buf, p + 4)), 4),
        WordAt(buf, p + 8)), 4),
                WordAt(buf, p + 12)), 4)
  {
    hide Zeros, Xor, Fold, WordAt;
    FoldNextWord(l0, buf, p);
    FoldNextWord(l0, buf, p + 4);
    FoldNextWord(l0, buf, p + 8);
    FoldNextWord(l0, buf, p + 12);
  }

  function WordAt(buf: seq<byte>, p: nat): bv32
    requires p + 4 <= |buf|
  {
    DecodeFixed32(buf[p..p + 4])
  }

  /** Advances a word by its own four bytes through the byte table. */
  method Step4W(word: bv32, l: bv32) returns (r: bv32)
    ensures r == Zeros(Xor(word, l), 4)
  {
    hide Xor, ZeroByte, Low, Shr8;
    var w := Xor(word, l);
    for i := 0 to 4
      invariant Zeros(w, 4 - i) == Zeros(Xor(word, l), 4)
    {
      TableStep(w, 0);
      XorZero(Low(w));
      XorZero(w);
      SplitLow(w);
      XorCommutes(Shr8(w), ByteTable(Low(w)));
      w := Xor(Shr8(w), ByteTable(Low(w)));
    }
    r := w;
  }

  lemma XorZero(x: bv32)
    ensures Xor(x, 0) == x
  {
  }

  method Step1(l: bv32, b: byte) returns (r: bv32)
    ensures r == ZeroByte(Xor(l, Bits(b)))
  {
    hide Xor, ZeroByte, Low, Shr8;
    TableStep(l, Bits(b));
    var c := Xor(Low(l), Bits(b));
    r := Xor(ByteTable(c), Shr8(l));
  }

  /** The strided checksum of buf, which lies in memory at address addr. */
  method StridedExtend(crc: bv32, buf: seq<byte>, addr: nat) returns (r: bv32)
    ensures r == Extend(crc, buf)
  {
    hide Xor, Zeros, ZeroByte, Combine, Stride, Fold, WordAt, Bits;
    var p, e := 0, |buf|;
    var l := Xor(crc, ONES);
    ghost var l0 := l;
    var x := (addr + 3) / 4 * 4 - addr;
    FoldNothing(l0, buf);
    if x <= e {
      while p != x
        invariant p <= x && Fold(l0, buf[..p]) == l
        decreases x - p
      {
        FoldByte(l0, buf, p);
        l := Step1(l, buf[p]);
        p := p + 1;
      }
    }
    if e - p >= 16 {
      p, l := Swaths(buf, p, l, l0);
    }
    while p != e
      invariant p <= e && Fold(l0, buf[..p]) == l
      decreases e - p
    {
      FoldByte(l0, buf, p);
      l := Step1(l, buf[p]);
      p := p + 1;
    }
    assert buf[..e] == buf;
    r := Xor(l, ONES);
  }

  lemma FoldNothing(l0: bv32, buf: seq<byte>)
    ensures Fold(l0, buf[..0]) == l0
  {
  }

  /** The part of the checksum that works on four interleaved partial remainders. */
  method Swaths(buf: seq<byte>, start: nat, l: bv32, ghost l0: bv32) returns (p: nat, r: bv32)
    requires start + 16 <= |buf| && Fold(l0, buf[..start]) == l
    ensures start < p <= |buf| < p + 4 && Fold(l0, buf[..p]) == r
  {
    hide Xor, Zeros, ZeroByte, Stride, Fold, WordAt;
    p := start;
    var e := |buf|;
    var crc0, crc1, crc2, crc3 := Xor(WordAt(buf, p), l), WordAt(buf, p + 4), WordAt(buf, p + 8), WordAt(buf, p + 12);
    FoldNextSwath(l0, buf, p);
    XorCommutes(l, WordAt(buf, p));
    p := p + 16;
    assert Fold(l0, buf[..p]) == Combine(crc0, crc1, crc2, crc3);
    hide Combine;
    while e - p >= 16
      invariant start < p <= e && Fold(l0, buf[..p]) == Combine(crc0, crc1, crc2, crc3)
      decreases e - p
    {
      FoldNextSwath(l0, buf, p);
      StepFour(crc0, crc1, crc2, crc3, WordAt(buf, p), WordAt(buf, p + 4), WordAt(buf, p + 8), WordAt(buf, p + 12));
      crc0 := Xor(WordAt(buf, p), Stride(crc0));
      crc1 := Xor(WordAt(buf, p + 4), Stride(crc1));
      crc2 := Xor(WordAt(buf, p + 8), Stride(crc2));
      crc3 := Xor(WordAt(buf, p + 12), Stride(crc3));
      p := p + 16;
    }
    while e - p >= 4
      invariant start < p <= e && Fold(l0, buf[..p]) == Combine(crc0, crc1, crc2, crc3)
      decreases e - p
    {
      FoldNextWord(l0, buf, p);
      StepOne(crc0, crc1, crc2, crc3, WordAt(buf, p));
      crc0 := Xor(WordAt(buf, p), Stride(crc0));
      var tmp := crc0;
      crc0 := crc1;
      crc1 := crc2;
      crc2 := crc3;
      crc3 := tmp;
      p := p + 4;
    }
    r := Recombine(crc0, crc1, crc2, crc3);
  }

  method Recombine(crc0: bv32, crc1: bv32, crc2: bv32, crc3: bv32) returns (r: bv32)
    ensures r == Combine(crc0, crc1, crc2, crc3)
  {
    hide Xor, Zeros;
    r := Step4W(crc0, 0);
    XorZero(crc0);
    XorCommutes(crc1, r);
    r := Step4W(crc1, r);
    XorCommutes(crc2, r);
    r := Step4W(crc2, r);
    XorCommutes(crc3, r);
    r := Step4W(crc3, r);
  }

  // ----- The numbers in the tables -----

  /** An entry if its bit of the index is set. */
  function Pick(c: bv32, bit: bv32, entry: bv32): bv32 { if c & bit != 0 then entry else 0 }

  /** The entries of a table at the bits of its index, taken together. */
  function Spread(c: bv32, e1: bv32, e2: bv32, e4: bv32, e8: bv32, e16: bv32, e32: bv32, e64: bv32, e128: bv32): bv32 {
    Xor(Pick(c, 1, e1), Xor(Pick(c, 2, e2), Xor(Pick(c, 4, e4), Xor(Pick(c, 8, e8),
      Xor(Pick(c, 16, e16), Xor(Pick(c, 32, e32), Xor(Pick(c, 64, e64), Pick(c, 128, e128))))))))
  }

  lemma PickByte(c: bv32, bit: bv32, e: bv32)
    ensures ZeroByte(Pick(c, bit, e)) == Pick(c, bit, ZeroByte(e))
  {
    assert ZeroByte(0) == 0;
    hide ZeroByte;
  }

  /** A zero byte takes each entry on by itself. */
  lemma {:induction false} SpreadByte(
    c: bv32, e1: bv32, e2: bv32, e4: bv32, e8: bv32, e16: bv32, e32: bv32, e64: bv32, e128: bv32)
    ensures ZeroByte(Spread(c, e1, e2, e4, e8, e16, e32, e64, e128))
         == Spread(c, ZeroByte(e1), ZeroByte(e2), ZeroByte(e4), ZeroByte(e8),
                   ZeroByte(e16), ZeroByte(e32), ZeroByte(e64), ZeroByte(e128))
  {
    hide ZeroByte, Xor, Pick;
    var p1, p2, p4, p8 := Pick(c, 1, e1), Pick(c, 2, e2), Pick(c, 4, e4), Pick(c, 8, e8);
    var p16, p32, p64, p128 := Pick(c, 16, e16), Pick(c, 32, e32), Pick(c, 64, e64), Pick(c, 128, e128);
    ByteLinear(p1, Xor(p2, Xor(p4, Xor(p8, Xor(p16, Xor(p32, Xor(p64, p128)))))));
    ByteLinear(p2, Xor(p4, Xor(p8, Xor(p16, Xor(p32, Xor(p64, p128))))));
    ByteLinear(p4, Xor(p8, Xor(p16, Xor(p32, Xor(p64, p128)))));
    ByteLinear(p8, Xor(p16, Xor(p32, Xor(p64, p128))));
    ByteLinear(p16, Xor(p32, Xor(p64, p128)));
    ByteLinear(p32, Xor(p64, p128));
    ByteLinear(p64, p128);
    PickByte(c, 1, e1);
    PickByte(c, 2, e2);
    PickByte(c, 4, e4);
    PickByte(c, 8, e8);
    PickByte(c, 16, e16);
    PickByte(c, 32, e32);
    PickByte(c, 64, e64);
    PickByte(c, 128, e128);
  }

  /** An index is its bits. */
  lemma Apart(c: bv32)
    requires c < 256
    ensures c == Spread(c, 1, 2, 4, 8, 16, 32, 64, 128)
  {
    BitsApart(c);
    PickOne(c);
    hide Pick, Xor;
  }

  lemma PickOne(c: bv32)
    ensures Pick(c, 1, 1) == c & 1 && Pick(c, 2, 2) == c & 2 && Pick(c, 4, 4) == c & 4 && Pick(c, 8, 8) == c & 8
    ensures Pick(c, 16, 16) == c & 16 && Pick(c, 32, 32) == c & 32
    ensures Pick(c, 64, 64) == c & 64 && Pick(c, 128, 128) == c & 128
  {
  }

  lemma BitsApart(c: bv32)
    requires c < 256
    ensures c == Xor(c & 1, Xor(c & 2, Xor(c & 4, Xor(c & 8, Xor(c & 16, Xor(c & 32, Xor(c & 64, c & 128)))))))
  {
  }

  lemma {:induction false} SpreadZeros(c: bv32, n: nat)
    requires c < 256
    ensures Zeros(c, n) == Spread(c, Zeros(1, n), Zeros(2, n), Zeros(4, n), Zeros(8, n),
                                  Zeros(16, n), Zeros(32, n), Zeros(64, n), Zeros(128, n))
  {
    hide ZeroByte, Spread;
    if n == 0 {
      Apart(c);
    } else {
      SpreadZeros(c, n - 1);
      SpreadByte(c, Zeros(1, n - 1), Zeros(2, n - 1), Zeros(4, n - 1), Zeros(8, n - 1),
                 Zeros(16, n - 1), Zeros(32, n - 1), Zeros(64, n - 1), Zeros(128, n - 1));
      LastZero(c, n);
      LastZero(1, n);
      LastZero(2, n);
      LastZero(4, n);
      LastZero(8, n);
      LastZero(16, n);
      LastZero(32, n);
      LastZero(64, n);
      LastZero(128, n);
      hide Zeros;
    }
  }

  lemma LastZero(x: bv32, n: nat)
    requires n > 0
    ensures Zeros(x, n) == ZeroByte(Zeros(x, n - 1))
  {
    ZerosAdd(x, n - 1, 1);
    assert Zeros(Zeros(x, n - 1), 1) == ZeroByte(Zeros(x, n - 1));
    hide ZeroByte;
  }

  /** Four zero bytes, one after the other. */
  lemma Four(x: bv32, a: bv32, b: bv32, c: bv32, d: bv32)
    requires ZeroByte(x) == a && ZeroByte(a) == b && ZeroByte(b) == c && ZeroByte(c) == d
    ensures Zeros(x, 4) == d
  {
    hide ZeroByte;
    assert Zeros(c, 1) == d;
    assert Zeros(b, 2) == d;
    assert Zeros(a, 3) == d;
  }

  /** Four zero bytes after four after four. */
  lemma Strides(x: bv32, a: bv32, b: bv32, c: bv32)
    requires Zeros(x, 4) == a && Zeros(a, 4) == b && Zeros(b, 4) == c
    ensures Zeros(x, 13) == ZeroByte(c) && Zeros(x, 14) == ZeroByte(ZeroByte(c))
    ensures Zeros(x, 15) == ZeroByte(ZeroByte(ZeroByte(c)))
    ensures Zeros(x, 16) == ZeroByte(ZeroByte(ZeroByte(ZeroByte(c)))) == Zeros(c, 4)
  {
    hide ZeroByte, Zeros;
    ZerosAdd(x, 4, 8);
    ZerosAdd(a, 4, 4);
    ZerosAdd(x, 12, 4);
    LastZero(x, 13);
    LastZero(x, 14);
    LastZero(x, 15);
    LastZero(x, 16);
  }

  /** The byte table, from its entries 1, 2, 4, ..., 128. */
  lemma ByteTableIs(c: bv32)
    requires c < 256
    ensures ByteTable(c) == Spread(c, 0xf26b8303, 0xe13b70f7, 0xc79a971f, 0x8ad958cf,
      0x105ec76f, 0x20bd8ede, 0x417b1dbc, 0x82f63b78)
  {
    Apart(c);
    SpreadByte(c, 1, 2, 4, 8, 16, 32, 64, 128);
    ByteEntries();
    hide ZeroByte, Spread;
  }

  lemma ByteEntries()
    ensures ZeroByte(1) == 0xf26b8303 && ZeroByte(2) == 0xe13b70f7
    ensures ZeroByte(4) == 0xc79a971f && ZeroByte(8) == 0x8ad958cf
    ensures ZeroByte(16) == 0x105ec76f && ZeroByte(32) == 0x20bd8ede
    ensures ZeroByte(64) == 0x417b1dbc && ZeroByte(128) == 0x82f63b78
  {
  }

  /** The stride tables, from the same entries of each. */
  lemma {:induction false} StrideTableIs(c: bv32)
    requires c < 256
    ensures StrideTable(0, c) == Spread(c, 0x30d23865, 0x61a470ca, 0xc348e194, 0x837db5d9,
      0x03171d43, 0x062e3a86, 0x0c5c750c, 0x18b8ea18)
    ensures StrideTable(1, c) == Spread(c, 0x54075546, 0xa80eaa8c, 0x55f123e9, 0xabe247d2,
      0x5228f955, 0xa451f2aa, 0x4d4f93a5, 0x9a9f274a)
    ensures StrideTable(2, c) == Spread(c, 0x678efd01, 0xcf1dfa02, 0x9bd782f5, 0x3243731b,
      0x6486e636, 0xc90dcc6c, 0x97f7ee29, 0x2a03aaa3)
    ensures StrideTable(3, c) == Spread(c, 0xf20c0dfe, 0xe1f46d0d, 0xc604aceb, 0x89e52f27,
      0x162628bf, 0x2c4c517e, 0x5898a2fc, 0xb13145f8)
  {
    StrideEntries1();
    StrideEntries2();
    StrideEntries4();
    StrideEntries8();
    StrideEntries16();
    StrideEntries32();
    StrideEntries64();
    StrideEntries128();
    SpreadZeros(c, 13);
    SpreadZeros(c, 14);
    SpreadZeros(c, 15);
    SpreadZeros(c, 16);
    hide Zeros, Spread;
  }

  lemma StrideEntries1()
    ensures Zeros(1, 13) == 0x30d23865 && Zeros(1, 14) == 0x54075546
    ensures Zeros(1, 15) == 0x678efd01 && Zeros(1, 16) == 0xf20c0dfe
  {
    hide Zeros;
    Four(1, 0xf26b8303, 0x13a29877, 0xa541927e, 0xdd45aab8);
    Four(0xdd45aab8, 0x38116fac, 0xef306b19, 0x68032cc8, 0x493c7d27);
    Four(0x493c7d27, 0xf43ed648, 0xcb567ba5, 0x9771f7c1, 0x3171d430);
    Strides(1, 0xdd45aab8, 0x493c7d27, 0x3171d430);
  }

  lemma StrideEntries2()
    ensures Zeros(2, 13) == 0x61a470ca && Zeros(2, 14) == 0xa80eaa8c
    ensures Zeros(2, 15) == 0xcf1dfa02 && Zeros(2, 16) == 0xe1f46d0d
  {
    hide Zeros;
    Four(2, 0xe13b70f7, 0x274530ee, 0x4f6f520d, 0xbf672381);
    Four(0xbf672381, 0x7022df58, 0xdb8ca0c3, 0xd0065990, 0x9278fa4e);
    Four(0x9278fa4e, 0xed91da61, 0x934081bb, 0x2b0f9973, 0x62e3a860);
    Strides(2, 0xbf672381, 0x9278fa4e, 0x62e3a860);
  }

  lemma StrideEntries4()
    ensures Zeros(4, 13) == 0xc348e194 && Zeros(4, 14) == 0x55f123e9
    ensures Zeros(4, 15) == 0x9bd782f5 && Zeros(4, 16) == 0xc604aceb
  {
    hide Zeros;
    Four(4, 0xc79a971f, 0x4e8a61dc, 0x9edea41a, 0x7b2231f3);
    Four(0x7b2231f3, 0xe045beb0, 0xb2f53777, 0xa5e0c5d1, 0x211d826d);
    Four(0x211d826d, 0xdecfc233, 0x236d7587, 0x561f32e6, 0xc5c750c0);
    Strides(4, 0x7b2231f3, 0x211d826d, 0xc5c750c0);
  }

  lemma StrideEntries8()
    ensures Zeros(8, 13) == 0x837db5d9 && Zeros(8, 14) == 0xabe247d2
    ensures Zeros(8, 15) == 0x3243731b && Zeros(8, 16) == 0x89e52f27
  {
    hide Zeros;
    Four(8, 0x8ad958cf, 0x9d14c3b8, 0x38513ec5, 0xf64463e6);
    Four(0xf64463e6, 0xc5670b91, 0x6006181f, 0x4e2dfd53, 0x423b04da);
    Four(0x423b04da, 0xb873f297, 0x46daeb0e, 0xac3e65cc, 0x8e62d771);
    Strides(8, 0xf64463e6, 0x423b04da, 0x8e62d771);
  }

  lemma StrideEntries16()
    ensures Zeros(16, 13) == 0x03171d43 && Zeros(16, 14) == 0x5228f955
    ensures Zeros(16, 15) == 0x6486e636 && Zeros(16, 16) == 0x162628bf
  {
    hide Zeros;
    Four(16, 0x105ec76f, 0x3fc5f181, 0x70a27d8a, 0xe964b13d);
    Four(0xe964b13d, 0x8f2261d3, 0xc00c303e, 0x9c5bfaa6, 0x847609b4);
    Four(0x847609b4, 0x750b93df, 0x8db5d61c, 0x5d90bd69, 0x1929d813);
    Strides(16, 0xe964b13d, 0x847609b4, 0x1929d813);
  }

  lemma StrideEntries32()
    ensures Zeros(32, 13) == 0x062e3a86 && Zeros(32, 14) == 0xa451f2aa
    ensures Zeros(32, 15) == 0xc90dcc6c && Zeros(32, 16) == 0x2c4c517e
  {
    hide Zeros;
    Four(32, 0x20bd8ede, 0x7f8be302, 0xe144fb14, 0xd725148b);
    Four(0xd725148b, 0x1ba8b557, 0x85f4168d, 0x3d5b83bd, 0x0d006599);
    Four(0x0d006599, 0xea1727be, 0x1e87dac9, 0xbb217ad2, 0x3253b026);
    Strides(32, 0xd725148b, 0x0d006599, 0x3253b026);
  }

  lemma StrideEntries64()
    ensures Zeros(64, 13) == 0x0c5c750c && Zeros(64, 14) == 0x4d4f93a5
    ensures Zeros(64, 15) == 0x97f7ee29 && Zeros(64, 16) == 0x5898a2fc
  {
    hide Zeros;
    Four(64, 0x417b1dbc, 0xff17c604, 0xc76580d9, 0xaba65fe7);
    Four(0xaba65fe7, 0x37516aae, 0x0e045beb, 0x7ab7077a, 0x1a00cb32);
    Four(0x1a00cb32, 0xd1c2398d, 0x3d0fb592, 0x73ae8355, 0x64a7604c);
    Strides(64, 0xaba65fe7, 0x1a00cb32, 0x64a7604c);
  }

  lemma StrideEntries128()
    ensures Zeros(128, 13) == 0x18b8ea18 && Zeros(128, 14) == 0x9a9f274a
    ensures Zeros(128, 15) == 0x2a03aaa3 && Zeros(128, 16) == 0xb13145f8
  {
    hide Zeros;
    Four(128, 0x82f63b78, 0xfbc3faf9, 0x8b277743, 0x52a0c93f);
    Four(0x52a0c93f, 0x6ea2d55c, 0x1c08b7d6, 0xf56e0ef4, 0x34019664);
    Four(0x34019664, 0xa66805eb, 0x7a1f6b24, 0xe75d06aa, 0xc94ec098);
    Strides(128, 0x52a0c93f, 0x34019664, 0xc94ec098);
  }

  // ----- Known checksums -----

  lemma {:induction false} FoldZeroes(l: bv32, n: nat)
    ensures Fold(l, seq(n, _ => 0 as byte)) == Zeros(l, n)
    decreases n
  {
    hide ZeroByte;
    if n > 0 {
      var zeroes := seq(n, _ => 0 as byte);
      assert zeroes[0] == 0 && zeroes[1..] == seq(n - 1, _ => 0 as byte);
      assert Bits(0) == 0;
      XorZero(l);
      FoldZeroes(ZeroByte(l), n - 1);
    }
  }

  /** The checksum of 32 zero bytes is that of section B.4 of RFC 3720. */
  lemma {:induction false} ChecksumOfZeroes()
    ensures Value(seq(32, _ => 0 as byte)) == 0x8a9136aa
  {
    hide Zeros, Fold;
    assert Xor(0, ONES) == ONES && Xor(0x756ec955, ONES) == 0x8a9136aa;
    FoldZeroes(ONES, 32);
    ZerosAdd(ONES, 16, 16);
    FirstHalf();
    SecondHalf();
  }

  lemma FirstHalf()
    ensures Zeros(ONES, 16) == 0xbd8f6515
  {
    hide Zeros;
    Four(ONES, 0xad82acae, 0x0e9e882d, 0x9f9b5c85, 0xb798b438);
    Four(0xb798b438, 0xba8d89ca, 0xa8d58375, 0x44c19592, 0x73d74d75);
    Four(0x73d74d75, 0x441a975c, 0x1c220f94, 0x552e4907, 0xd49f4aa2);
    Strides(ONES, 0xb798b438, 0x73d74d75, 0xd49f4aa2);
  }

  lemma SecondHalf()
    ensures Zeros(0xbd8f6515, 16) == 0x756ec955
  {
    hide Zeros;
    Four(0xbd8f6515, 0x25125c16, 0x36da32db, 0x4a6c90a2, 0x433aa9c1);
    Four(0x433aa9c1, 0x31a59f6e, 0xcd8f89da, 0xb8fc461a, 0x7b041311);
    Four(0x7b041311, 0xe24e407f, 0x2f692669, 0x195b2188, 0x08363896);
    Strides(0xbd8f6515, 0x433aa9c1, 0x7b041311, 0x08363896);
  }

  /** Masking takes bit 15 to bit 0 and bit 0 to bit 17, and adds the constant. */
  lemma MaskOfBits()
    ensures Mask(0) == 0xa282ead8 && Mask(0x8000) == 0xa282ead9 && Mask(1) == 0xa284ead8
  {
  }

  lemma {:induction false} ChecksumOfByte()
    ensures Value([]) == 0 && Value([0x7f]) == 0x7df63b78
  {
    assert [0x7f as byte][1..] == [];
    assert Bits(0x7f) == 0x7f;
    assert ZeroByte(0xffffff80) == 0x8209c487;
    hide ZeroByte;
  }
}
