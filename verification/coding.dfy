/** Variable-length and fixed-length numbers, and length-prefixed strings (coding.cc). */
module Coding {
  import opened Ordering
  import opened Bytes
  import opened Lists

  const TWO32: nat := 0x1_0000_0000
  const TWO64: nat := 0x1_0000_0000_0000_0000

  // ----- Varints -----

  /** Seven bits a byte, low bits first; every byte but the last has its top bit set. */
  function Varint(v: nat): (bs: seq<byte>)
    ensures |bs| > 0
  {
    if v < 128 then [v as byte] else [(v % 128 + 128) as byte] + Varint(v / 128)
  }

  /**
   * The number read from p on, and the position after it: the first byte below 128 ends it. It must end
   * before `limit` and within `left` bytes.
   */
  function ReadVarint(bs: seq<byte>, p: nat, limit: nat, left: nat): (r: Option<(nat, nat)>)
    requires limit <= |bs|
    ensures r.Some? ==> p < r.value.1 <= limit
    decreases left
  {
    if left == 0 || p >= limit then None
    else if bs[p] < 128 then Some((bs[p] as nat, p + 1))
    else
      match ReadVarint(bs, p + 1, limit, left - 1)
      case None => None
      case Some((v, q)) => Some(((bs[p] as nat - 128) + 128 * v, q))
  }

  /** What a 32-bit reader makes of at most five bytes: high bits fall off. */
  function GetVarint32(bs: seq<byte>, p: nat, limit: nat): (r: Option<(nat, nat)>)
    requires limit <= |bs|
    ensures r.Some? ==> p < r.value.1 <= limit
  {
    match ReadVarint(bs, p, limit, 5)
    case None => None
    case Some((v, q)) => Some((v % TWO32, q))
  }

  function GetVarint64(bs: seq<byte>, p: nat, limit: nat): Option<(nat, nat)>
    requires limit <= |bs|
  {
    match ReadVarint(bs, p, limit, 10)
    case None => None
    case Some((v, q)) => Some((v % TWO64, q))
  }

  function Pow128(k: nat): nat { if k == 0 then 1 else 128 * Pow128(k - 1) }

  lemma {:induction false} ReadWritten(bs: seq<byte>, p: nat, limit: nat, left: nat, v: nat)
    requires At(bs, p, Varint(v)) && p + |Varint(v)| <= limit <= |bs|
    requires v < Pow128(left) && left > 0
    ensures ReadVarint(bs, p, limit, left) == Some((v, p + |Varint(v)|))
    decreases left
  {
    assert bs[p] == bs[p..p + |Varint(v)|][0];
    if v >= 128 {
      AtTail(bs, p, Varint(v), 1);
      assert Varint(v)[1..] == Varint(v / 128);
      ReadWritten(bs, p + 1, limit, left - 1, v / 128);
    }
  }

  /** Reading back gives the number written and stops right after it, for every 32-bit number. */
  lemma {:induction false} Varint32RoundTrip(bs: seq<byte>, p: nat, limit: nat, v: nat)
    requires v < TWO32 && At(bs, p, Varint(v)) && p + |Varint(v)| <= limit <= |bs|
    ensures GetVarint32(bs, p, limit) == Some((v, p + |Varint(v)|))
  {
    assert Pow128(5) == 0x8_0000_0000 by {
      assert Pow128(2) == 0x4000;
      assert Pow128(4) == 0x1000_0000;
    }
    ReadWritten(bs, p, limit, 5, v);
  }

  lemma {:induction false} Varint64RoundTrip(bs: seq<byte>, p: nat, limit: nat, v: nat)
    requires v < TWO64 && At(bs, p, Varint(v)) && p + |Varint(v)| <= limit <= |bs|
    ensures GetVarint64(bs, p, limit) == Some((v, p + |Varint(v)|))
  {
    assert Pow128(10) == 0x40_0000_0000_0000_0000 by {
      assert Pow128(3) == 0x20_0000;
      assert Pow128(6) == 0x400_0000_0000;
      assert Pow128(9) == 0x8000_0000_0000_0000;
    }
    ReadWritten(bs, p, limit, 10, v);
  }

  lemma VarintLast(v: nat)
    requires v < 128
    ensures Varint(v) == [v as byte]
  {
  }

  /** One byte with the top bit set, before the rest of the number. */
  lemma VarintMore(v: nat)
    requires v >= 128
    ensures Varint(v) == [(v % 128 + 128) as byte] + Varint(v / 128)
  {
  }

  lemma Shifts(v: nat)
    ensures v / 0x80 / 128 == v / 0x4000
    ensures v / 0x4000 / 128 == v / 0x20_0000
    ensures v / 0x20_0000 / 128 == v / 0x1000_0000
  {
  }

  /** The unrolled 32-bit writer. A byte keeps the low eight bits of what is stored in it. */
  method EncodeVarint32(v: nat) returns (dst: seq<byte>)
    requires v < TWO32
    ensures dst == Varint(v) && |dst| <= 5
  {
    hide Varint;
    Shifts(v);
    if v < 0x80 {
      VarintLast(v);
      dst := [v as byte];
    } else if v < 0x4000 {
      VarintMore(v);
      VarintLast(v / 0x80);
      dst := [(v % 128 + 128) as byte, (v / 0x80) as byte];
    } else if v < 0x20_0000 {
      VarintMore(v);
      VarintMore(v / 0x80);
      VarintLast(v / 0x4000);
      dst := [(v % 128 + 128) as byte, (v / 0x80 % 128 + 128) as byte, (v / 0x4000) as byte];
    } else if v < 0x1000_0000 {
      VarintMore(v);
      VarintMore(v / 0x80);
      VarintMore(v / 0x4000);
      VarintLast(v / 0x20_0000);
      dst := [(v % 128 + 128) as byte, (v / 0x80 % 128 + 128) as byte, (v / 0x4000 % 128 + 128) as byte,
        (v / 0x20_0000) as byte];
    } else {
      VarintMore(v);
      VarintMore(v / 0x80);
      VarintMore(v / 0x4000);
      VarintMore(v / 0x20_0000);
      VarintLast(v / 0x1000_0000);
      dst := [(v % 128 + 128) as byte, (v / 0x80 % 128 + 128) as byte, (v / 0x4000 % 128 + 128) as byte,
        (v / 0x20_0000 % 128 + 128) as byte, (v / 0x1000_0000) as byte];
    }
  }

  /** The loop of the 64-bit writer. */
  method EncodeVarint64(v: nat) returns (dst: seq<byte>)
    ensures dst == Varint(v)
  {
    dst := [];
    var w := v;
    while w >= 128
      invariant dst + Varint(w) == Varint(v)
    {
      dst := dst + [(w % 128 + 128) as byte];
      w := w / 128;
    }
    dst := dst + [w as byte];
  }

  /** The reading loop: a shift and an accumulator that overflows silently. */
  method ReadVarint32(bs: seq<byte>, p: nat, limit: nat) returns (r: Option<(nat, nat)>)
    requires limit <= |bs|
    ensures r == GetVarint32(bs, p, limit)
  {
    hide ReadVarint, GetVarint32, Shifted;
    var result: nat, unit: nat, q: nat, left: nat := 0, 1, p, 5;
    ReadStart(bs, p, limit);
    while left > 0 && q < limit
      invariant left <= 5 && p <= q
      invariant GetVarint32(bs, p, limit) == Shifted(ReadVarint(bs, q, limit, left), result, unit)
      decreases left
    {
      var b := bs[q] as nat;
      ReadStep(bs, q, limit, left, result, unit);
      if b >= 128 {
        result := (result + b % 128 * unit) % TWO32;
      } else {
        return Some(((result + b * unit) % TWO32, q + 1));
      }
      q, unit, left := q + 1, unit * 128, left - 1;
    }
    ReadStep(bs, q, limit, left, result, unit);
    return None;
  }

  lemma ReadStart(bs: seq<byte>, p: nat, limit: nat)
    requires limit <= |bs|
    ensures GetVarint32(bs, p, limit) == Shifted(ReadVarint(bs, p, limit, 5), 0, 1)
  {
  }

  lemma ReadStep(bs: seq<byte>, q: nat, limit: nat, left: nat, result: nat, unit: nat)
    requires limit <= |bs|
    ensures Shifted(ReadVarint(bs, q, limit, left), result, unit) ==
      if left == 0 || q >= limit then None
      else if bs[q] >= 128 then
        Shifted(ReadVarint(bs, q + 1, limit, left - 1), (result + bs[q] as nat % 128 * unit) % TWO32, unit * 128)
      else Some(((result + bs[q] as nat * unit) % TWO32, q + 1))
  {
    if left > 0 && q < limit {
      var b, rest := bs[q] as nat, ReadVarint(bs, q + 1, limit, left - 1);
      if b >= 128 {
        assert b % 128 == b - 128;
        Shift(rest, result, unit, b % 128);
        hide ReadVarint, Shifted;
        ReadMore(bs, q, limit, left, result, unit, rest);
      } else {
        hide ReadVarint;
        ReadLast(bs, q, limit, left);
      }
    }
  }

  lemma ReadLast(bs: seq<byte>, q: nat, limit: nat, left: nat)
    requires q < limit <= |bs| && left > 0 && bs[q] < 128
    ensures ReadVarint(bs, q, limit, left) == Some((bs[q] as nat, q + 1))
  {
  }

  lemma ReadMore(bs: seq<byte>, q: nat, limit: nat, left: nat, result: nat, unit: nat, rest: Option<(nat, nat)>)
    requires q < limit <= |bs| && left > 0 && bs[q] >= 128 && rest == ReadVarint(bs, q + 1, limit, left - 1)
    ensures Shifted(ReadVarint(bs, q, limit, left), result, unit)
      == if rest.None? then Shifted(rest, result, unit * 128)
         else Shifted(Some((bs[q] as nat - 128 + 128 * rest.value.0, rest.value.1)), result, unit)
    ensures rest.None? ==> forall r, u :: Shifted(rest, r, u) == None
  {
  }

  /** A reading that continues one whose low part is already in `result`. */
  function Shifted(rest: Option<(nat, nat)>, result: nat, unit: nat): Option<(nat, nat)> {
    match rest
    case None => None
    case Some((v, q)) => Some(((result + v * unit) % TWO32, q))
  }

  lemma Shift(rest: Option<(nat, nat)>, result: nat, unit: nat, b: nat)
    ensures rest.Some? ==>
      Shifted(Some((b + 128 * rest.value.0, rest.value.1)), result, unit)
        == Shifted(rest, (result + b * unit) % TWO32, unit * 128)
  {
    if rest.Some? {
      var v := rest.value.0;
      assert (b + 128 * v) * unit == b * unit + v * (unit * 128);
      ModAdd(result + b * unit, v * (unit * 128));
    }
  }

  lemma ModAdd(a: nat, b: nat)
    ensures (a + b) % TWO32 == (a % TWO32 + b) % TWO32
  {
    var q := a / TWO32;
    assert a == q * TWO32 + a % TWO32;
  }

  // ----- Fixed-length numbers -----

  /** The low k bytes of a number, low byte first: its image in memory on a little-endian host. */
  function Fixed(v: nat, k: nat): (bs: seq<byte>)
    ensures |bs| == k
  {
    if k == 0 then [] else [(v % 256) as byte] + Fixed(v / 256, k - 1)
  }

  function Unfixed(bs: seq<byte>): nat {
    if bs == [] then 0 else bs[0] as nat + 256 * Unfixed(bs[1..])
  }

  function Pow256(k: nat): nat { if k == 0 then 1 else 256 * Pow256(k - 1) }

  lemma {:induction false} FixedRoundTrip(v: nat, k: nat)
    requires v < Pow256(k)
    ensures Unfixed(Fixed(v, k)) == v
  {
    if k > 0 {
      FixedRoundTrip(v / 256, k - 1);
      assert Fixed(v, k)[1..] == Fixed(v / 256, k - 1);
    }
  }

  lemma Pow256Values()
    ensures Pow256(4) == TWO32 && Pow256(8) == TWO64
  {
    assert Pow256(2) == 0x1_0000;
    assert Pow256(6) == 0x1_0000_0000_0000;
  }

  /** The bytes of a number are the number's. */
  lemma {:induction false} UnfixedRoundTrip(bs: seq<byte>)
    ensures Unfixed(bs) < Pow256(|bs|) && Fixed(Unfixed(bs), |bs|) == bs
  {
    if bs != [] {
      var rest := Unfixed(bs[1..]);
      UnfixedRoundTrip(bs[1..]);
      assert Unfixed(bs) / 256 == rest && Unfixed(bs) % 256 == bs[0] as nat;
      assert bs == [bs[0]] + bs[1..];
    }
  }

  // ----- Length-prefixed strings -----

  function LengthPrefixed(s: seq<byte>): (bs: seq<byte>) { Varint(|s|) + s }

  /** The string read from p on, and the position after it. */
  function GetLengthPrefixed(bs: seq<byte>, p: nat, limit: nat): (r: Option<(seq<byte>, nat)>)
    requires limit <= |bs|
    ensures r.Some? ==> p < r.value.1 <= limit
  {
    match GetVarint32(bs, p, limit)
    case None => None
    case Some((n, q)) => if q + n <= limit then Some((bs[q..q + n], q + n)) else None
  }

  lemma {:induction false} LengthPrefixedRoundTrip(bs: seq<byte>, p: nat, limit: nat, s: seq<byte>)
    requires |s| < TWO32 && At(bs, p, LengthPrefixed(s)) && p + |LengthPrefixed(s)| <= limit <= |bs|
    ensures GetLengthPrefixed(bs, p, limit) == Some((s, p + |LengthPrefixed(s)|))
  {
    AtSplit(bs, p, Varint(|s|), s);
    Varint32RoundTrip(bs, p, limit, |s|);
  }

  // ----- The digits of a number -----

  lemma DivideTwice(n: nat, a: nat, b: nat)
    requires a > 0 && b > 0
    ensures a * b > 0 && n / a / b == n / (a * b)
  {
    var d := n / a;
    var q, r, rest := d / b, d % b, n % a;
    assert n == a * b * q + (a * r + rest) by {
      Nested(n, a, b, d, q, r, rest);
    }
    Multiples(a, r, b);
    Quotient(n, a * b, q, a * r + rest);
  }

  lemma Nested(n: nat, a: nat, b: nat, d: nat, q: nat, r: nat, rest: nat)
    requires n == a * d + rest && d == b * q + r
    ensures n == a * b * q + (a * r + rest)
  {
    assert a * (b * q + r) == a * (b * q) + a * r;
    assert a * (b * q) == a * b * q;
  }

  lemma Quotient(x: nat, m: nat, q: nat, r: nat)
    requires m > 0 && x == m * q + r && r < m
    ensures x / m == q
  {
    var d, rest := x / m, x % m;
    assert x == m * d + rest;
    Multiples(m, d, q);
    Multiples(m, q, d);
  }

  lemma Multiples(m: nat, a: nat, b: nat)
    ensures a < b ==> m * a + m <= m * b
    ensures a <= b ==> m * a <= m * b
  {
    if a <= b {
      assert m * b == m * a + m * (b - a);
      if a < b {
        assert m * (b - a) == m + m * (b - a - 1);
      }
    }
  }

  /** Byte i of a varint is digit i to the base of 128, with the top bit set on all but the last, which is not 0. */
  lemma {:induction false} VarintDigit(v: nat, i: nat)
    requires i < |Varint(v)|
    ensures Pow128(i) > 0
    ensures Varint(v)[i] as nat == v / Pow128(i) % 128 + if i < |Varint(v)| - 1 then 128 else 0
    ensures i > 0 && i == |Varint(v)| - 1 ==> Varint(v)[i] != 0
    decreases v
  {
    if i > 0 {
      VarintMore(v);
      VarintDigit(v / 128, i - 1);
      DivideTwice(v, 128, Pow128(i - 1));
    }
  }

  /** Byte i of a fixed-length number is digit i to the base of 256. */
  lemma {:induction false} FixedDigit(v: nat, k: nat, i: nat)
    requires i < k
    ensures Pow256(i) > 0 && Fixed(v, k)[i] as nat == v / Pow256(i) % 256
  {
    if i > 0 {
      FixedDigit(v / 256, k - 1, i - 1);
      DivideTwice(v, 256, Pow256(i - 1));
    }
  }
}
