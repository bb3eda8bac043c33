/** LEB128 numbers (section 7.6 of DWARF 5) as the exception runtime reads them. */
module Leb128 {
  import opened Basics

  const TWO64: int := 0x1_0000_0000_0000_0000
  const TWO63: int := 0x8000_0000_0000_0000

  function Pow128(k: nat): (p: nat)
    ensures p > 0
  {
    if k == 0 then 1 else 128 * Pow128(k - 1)
  }

  // Where the number starting at p ends: just past its first byte below 0x80.
  function EndOf(buf: seq<Byte>, p: nat): (e: Option<nat>)
    ensures e.Some? ==> p < e.value <= |buf| && buf[e.value - 1] < 128
    decreases |buf| - p
  {
    if p >= |buf| then None
    else if buf[p] < 128 then Some(p + 1)
    else EndOf(buf, p + 1)
  }

  // The number whose 7-bit groups are buf[p..e], least significant first.
  function Groups(buf: seq<Byte>, p: nat, e: nat): nat
    requires p <= e <= |buf|
    decreases e - p
  {
    if p == e then 0 else buf[p] % 128 + 128 * Groups(buf, p + 1, e)
  }

  function Unsigned(buf: seq<Byte>, p: nat, e: nat): nat
    requires p <= e <= |buf|
  {
    Groups(buf, p, e) % TWO64
  }

  // (int64_t)r.
  function Int64(r: int): int {
    if r % TWO64 < TWO63 then r % TWO64 else r % TWO64 - TWO64
  }

  // The sign is bit 6 of the last byte; it is extended only below bit 64.
  function Signed(buf: seq<Byte>, p: nat, e: nat): int
    requires p < e <= |buf|
  {
    var r, k := Unsigned(buf, p, e), e - p;
    if k < 10 && buf[e - 1] % 128 >= 64 then Int64(r + TWO64 - Pow128(k)) else Int64(r)
  }

  // a | b, bit by bit.
  function Or(a: nat, b: nat): nat {
    if a == 0 && b == 0 then 0
    else 2 * Or(a / 2, b / 2) + if a % 2 == 1 || b % 2 == 1 then 1 else 0
  }

  function Pow2(s: nat): (p: nat)
    ensures p > 0
  {
    if s == 0 then 1 else 2 * Pow2(s - 1)
  }

  // Numbers whose bits lie apart are added by "or".
  lemma {:induction false} OrIsSum(a: nat, m: nat, s: nat)
    requires a < Pow2(s)
    ensures Or(a, m * Pow2(s)) == a + m * Pow2(s)
    decreases s
  {
    if s == 0 {
      OrZero(m);
    } else {
      var q := Pow2(s - 1);
      assert m * Pow2(s) == 2 * (m * q) by {
        Double(m, q);
      }
      OrIsSum(a / 2, m, s - 1);
      OneBit(a, m * q);
    }
  }

  lemma Double(m: nat, q: nat)
    ensures m * (2 * q) == 2 * (m * q)
  {
  }

  lemma OneBit(a: nat, b: nat)
    ensures Or(a, 2 * b) == 2 * Or(a / 2, b) + a % 2
  {
    if a == 0 && b == 0 {
      assert Or(0, 0) == 0;
    }
  }

  lemma {:induction false} OrZero(m: nat)
    ensures Or(0, m) == m
  {
    if m > 0 {
      OrZero(m / 2);
    }
  }

  lemma {:induction false} Pow128IsPow2(k: nat)
    ensures Pow128(k) == Pow2(7 * k)
  {
    if k > 0 {
      Pow128IsPow2(k - 1);
      SevenDoublings(7 * (k - 1));
    }
  }

  lemma SevenDoublings(s: nat)
    ensures Pow2(s + 7) == 128 * Pow2(s)
  {
    assert Pow2(s + 2) == 2 * Pow2(s + 1) && Pow2(s + 1) == 2 * Pow2(s);
    assert Pow2(s + 4) == 2 * Pow2(s + 3) && Pow2(s + 3) == 2 * Pow2(s + 2);
    assert Pow2(s + 6) == 2 * Pow2(s + 5) && Pow2(s + 5) == 2 * Pow2(s + 4);
  }

  // r | x << 7k on 64-bit words; what is shifted past bit 63 is lost.
  function OrGroup(r: nat, x: nat, k: nat): nat {
    Or(r, (x * Pow128(k)) % TWO64)
  }

  // The group lies above everything read so far, so its bits are apart from those of r.
  lemma OrGroupIsSum(r: nat, x: nat, k: nat)
    requires k < 10 && r < Pow128(k) && x < 128
    ensures OrGroup(r, x, k) == r + (x * Pow128(k)) % TWO64
  {
    var m := if k == 9 then x % 2 else x;
    ShiftedGroup(x, k);
    Pow128IsPow2(k);
    OrIsSum(r, m, 7 * k);
  }

  lemma ShiftedGroup(x: nat, k: nat)
    requires k < 10 && x < 128
    ensures (x * Pow128(k)) % TWO64 == (if k == 9 then x % 2 else x) * Pow128(k)
  {
    Pow128Values();
    if k == 9 {
      TopBit(x);
    } else {
      Pow128Grows(k, 8);
      assert Pow128(9) == 128 * Pow128(8);
      ProductGrows(x, 127, Pow128(k));
    }
  }

  lemma TopBit(x: nat)
    ensures (x * TWO63) % TWO64 == x % 2 * TWO63
  {
    var h, b := x / 2, x % 2;
    assert x * TWO63 == h * TWO64 + b * TWO63;
  }

  // r |= -(1ULL << 7k): the bits from 7k on are clear in r.
  lemma OrSignIsSum(r: nat, k: nat)
    requires 0 < k < 10 && r < Pow128(k)
    ensures Pow128(k) <= TWO64 && Or(r, TWO64 - Pow128(k)) == r + TWO64 - Pow128(k)
  {
    Pow128IsPow2(k);
    Pow2Splits(64 - 7 * k, 7 * k);
    assert Pow2(64) == TWO64 by {
      TwoTo64();
    }
    var m := Pow2(64 - 7 * k);
    LessOne(m, Pow2(7 * k));
    OrIsSum(r, m - 1, 7 * k);
  }

  lemma LessOne(m: nat, q: nat)
    requires m > 0
    ensures (m - 1) * q == m * q - q && m * q >= q
  {
    ProductGrows(1, m, q);
  }

  lemma {:induction false} Pow2Splits(a: nat, b: nat)
    ensures Pow2(a + b) == Pow2(a) * Pow2(b)
    decreases a
  {
    if a > 0 {
      Pow2Splits(a - 1, b);
      Regroup2(Pow2(a - 1), Pow2(b));
    }
  }

  lemma Regroup2(p: nat, q: nat)
    ensures 2 * (p * q) == (2 * p) * q
  {
  }

  lemma TwoTo64()
    ensures Pow2(64) == TWO64
  {
    Pow128Values();
    Pow128IsPow2(9);
  }

  lemma {:induction false} GroupsBound(buf: seq<Byte>, p: nat, e: nat)
    requires p <= e <= |buf|
    ensures Groups(buf, p, e) < Pow128(e - p)
    decreases e - p
  {
    if p < e {
      GroupsBound(buf, p + 1, e);
    }
  }

  lemma Regroup(x: nat, q: nat)
    ensures 128 * (x * q) == x * (128 * q)
  {
  }

  lemma {:induction false} GroupsGrow(buf: seq<Byte>, p: nat, e: nat)
    requires p <= e < |buf|
    ensures Groups(buf, p, e + 1) == Groups(buf, p, e) + (buf[e] % 128) * Pow128(e - p)
    decreases e - p
  {
    if p < e {
      GroupsGrow(buf, p + 1, e);
      var x, q := buf[e] % 128, Pow128(e - p - 1);
      Regroup(x, q);
    }
  }

  lemma Pow128Values()
    ensures Pow128(9) == TWO63 && Pow128(10) == 64 * TWO64
  {
    assert Pow128(3) == 0x20_0000;
    assert Pow128(6) == 0x400_0000_0000;
  }

  lemma {:induction false} Pow128Grows(j: nat, k: nat)
    requires j <= k
    ensures Pow128(j) <= Pow128(k)
  {
    if j < k {
      Pow128Grows(j, k - 1);
    }
  }

  // One more byte: the or-ed word is the number read so far, exact while it has at most nine groups.
  lemma GroupStep(buf: seq<Byte>, start: nat, p: nat)
    requires start <= p < |buf| && p - start < 10
    ensures Groups(buf, start, p) < Pow128(p - start)
    ensures OrGroup(Groups(buf, start, p), buf[p] % 128, p - start) == Unsigned(buf, start, p + 1)
    ensures p + 1 - start <= 9 ==> Unsigned(buf, start, p + 1) == Groups(buf, start, p + 1)
  {
    hide Pow128, Groups, OrGroup;
    GroupsBound(buf, start, p);
    GroupsGrow(buf, start, p);
    LastGroup(Groups(buf, start, p), buf[p] % 128, p - start);
    if p + 1 - start <= 9 {
      GroupsFit(buf, start, p + 1);
    }
  }

  // read_uleb128.
  method ReadUleb128(buf: seq<Byte>, start: nat) returns (r: nat, p: nat)
    requires EndOf(buf, start).Some? && EndOf(buf, start).value - start <= 10
    ensures p == EndOf(buf, start).value && r == Unsigned(buf, start, p)
  {
    hide Pow128, OrGroup, Unsigned;
    r, p := 0, start;
    while true
      invariant start <= p < |buf| && EndOf(buf, p) == EndOf(buf, start)
      invariant p - start < 10 && r == Groups(buf, start, p)
      decreases |buf| - p
    {
      var b := buf[p];
      p := p + 1;
      GroupStep(buf, start, p - 1);
      r := OrGroup(r, b % 128, p - 1 - start);
      if b < 128 {
        break;
      }
    }
  }

  lemma LastGroup(r: nat, x: nat, k: nat)
    requires k < 10 && r < Pow128(k) && x < 128
    ensures OrGroup(r, x, k) == (r + x * Pow128(k)) % TWO64
  {
    OrGroupIsSum(r, x, k);
    Pow128Values();
    if k == 9 {
      TopGroup(r, x);
    } else {
      Pow128Grows(k + 1, 9);
      LowGroup(r, x, Pow128(k));
    }
  }

  lemma LowGroup(r: nat, x: nat, q: nat)
    requires r < q && 128 * q <= TWO63 && x < 128
    ensures r + (x * q) % TWO64 == (r + x * q) % TWO64
  {
    ProductGrows(x, 127, q);
    SumStaysSmall(r, x * q);
  }

  lemma ProductGrows(x: nat, y: nat, q: nat)
    requires x <= y
    ensures x * q <= y * q
  {
  }

  lemma SumStaysSmall(r: nat, z: nat)
    requires r + z < TWO64
    ensures r + z % TWO64 == (r + z) % TWO64
  {
  }

  lemma TopGroup(r: nat, x: nat)
    requires r < TWO63 && x < 128
    ensures r + (x * TWO63) % TWO64 == (r + x * TWO63) % TWO64
  {
    var h, b := x / 2, x % 2;
    assert x * TWO63 == h * TWO64 + b * TWO63;
  }

  lemma GroupsFit(buf: seq<Byte>, start: nat, p: nat)
    requires start <= p <= |buf| && p - start <= 9
    ensures Groups(buf, start, p) < TWO64
  {
    GroupsBound(buf, start, p);
    Pow128Grows(p - start, 9);
    Pow128Values();
  }

  // ---------------------------------------------------------------- round trips

  // The encoder of section 7.6 for unsigned numbers.
  function EncodeU(v: nat): seq<Byte> {
    if v < 128 then [v] else [128 + v % 128] + EncodeU(v / 128)
  }

  // The encoder for signed numbers: stop once the rest is all copies of the sign bit just written.
  function EncodeS(v: int): seq<Byte>
    decreases if v < 0 then -v else v
  {
    var low, rest := v % 128, v / 128;
    if (rest == 0 && low < 64) || (rest == -1 && low >= 64) then [low] else [128 + low] + EncodeS(rest)
  }

  // What surrounds a number does not matter.
  lemma {:induction false} InContext(pre: seq<Byte>, n: seq<Byte>, post: seq<Byte>, i: nat)
    requires i <= |n| && EndOf(n, i) == Some(|n|)
    ensures var buf := pre + n + post;
            && EndOf(buf, |pre| + i) == Some(|pre| + |n|)
            && Groups(buf, |pre| + i, |pre| + |n|) == Groups(n, i, |n|)
    decreases |n| - i
  {
    var buf := pre + n + post;
    assert buf[|pre| + i] == n[i];
    if n[i] >= 128 {
      InContext(pre, n, post, i + 1);
    }
  }

  lemma {:induction false} Shifted(b: Byte, n: seq<Byte>, i: nat)
    requires i <= |n| && EndOf(n, i) == Some(|n|)
    ensures EndOf([b] + n, i + 1) == Some(|n| + 1)
    ensures Groups([b] + n, i + 1, |n| + 1) == Groups(n, i, |n|)
    decreases |n| - i
  {
    assert ([b] + n)[i + 1] == n[i];
    if n[i] >= 128 {
      Shifted(b, n, i + 1);
    }
  }

  lemma OneMoreByte(low: nat, tail: seq<Byte>)
    requires low < 128 && EndOf(tail, 0) == Some(|tail|)
    ensures var n := [128 + low] + tail;
            && EndOf(n, 0) == Some(|n|) && Groups(n, 0, |n|) == low + 128 * Groups(tail, 0, |tail|)
            && n[|n| - 1] == tail[|tail| - 1] && Pow128(|n|) == 128 * Pow128(|tail|)
  {
    Shifted(128 + low, tail, 0);
  }

  lemma {:induction false} EncodedU(v: nat)
    ensures var n := EncodeU(v); EndOf(n, 0) == Some(|n|) && Groups(n, 0, |n|) == v
  {
    if v >= 128 {
      EncodedU(v / 128);
      OneMoreByte(v % 128, EncodeU(v / 128));
    }
  }

  lemma {:induction false} EncodedS(v: int)
    ensures var n := EncodeS(v);
            && EndOf(n, 0) == Some(|n|)
            && Groups(n, 0, |n|) == v + if n[|n| - 1] >= 64 then Pow128(|n|) else 0
    decreases if v < 0 then -v else v
  {
    var low, rest := v % 128, v / 128;
    if !((rest == 0 && low < 64) || (rest == -1 && low >= 64)) {
      EncodedS(rest);
      OneMoreByte(low, EncodeS(rest));
      hide EndOf, Groups;
    } else {
      assert Pow128(1) == 128 * Pow128(0);
    }
  }

  lemma {:induction false} LengthU(v: nat, k: nat)
    requires k > 0 && v < Pow128(k)
    ensures |EncodeU(v)| <= k
    decreases k
  {
    if v >= 128 {
      assert Pow128(1) == 128 * Pow128(0);
      LengthU(v / 128, k - 1);
    }
  }

  lemma {:induction false} LengthS(v: int, k: nat)
    requires k > 0 && -64 * Pow128(k - 1) <= v < 64 * Pow128(k - 1)
    ensures |EncodeS(v)| <= k
    decreases k
  {
    var low, rest := v % 128, v / 128;
    if k == 1 {
      assert Pow128(0) == 1;
    } else if !((rest == 0 && low < 64) || (rest == -1 && low >= 64)) {
      assert Pow128(k - 1) == 128 * Pow128(k - 2);
      LengthS(rest, k - 1);
    }
  }

  // Reading back an encoded unsigned 64-bit number gives that number and consumes exactly its bytes.
  // The examples of tables 7.7 and 7.8 of the standard.
  lemma StandardExamples()
    ensures EncodeU(2) == [2] && EncodeU(127) == [127] && EncodeU(128) == [0x80, 1]
    ensures EncodeU(129) == [0x81, 1] && EncodeU(12857) == [57 + 0x80, 100]
    ensures EncodeS(2) == [2] && EncodeS(-2) == [0x7e] && EncodeS(127) == [127 + 0x80, 0]
    ensures EncodeS(-127) == [1 + 0x80, 0x7f] && EncodeS(128) == [0 + 0x80, 1] && EncodeS(-128) == [0 + 0x80, 0x7f]
    ensures EncodeS(129) == [1 + 0x80, 1] && EncodeS(-129) == [0x7f + 0x80, 0x7e]
  {
  }

  lemma UnsignedRoundTrip(pre: seq<Byte>, v: nat, post: seq<Byte>)
    requires v < TWO64
    ensures var n, buf := EncodeU(v), pre + EncodeU(v) + post;
            && |n| <= 10 && EndOf(buf, |pre|) == Some(|pre| + |n|)
            && Unsigned(buf, |pre|, |pre| + |n|) == v
  {
    hide Pow128, EncodeU, EndOf, Groups;
    EncodedU(v);
    InContext(pre, EncodeU(v), post, 0);
    Pow128Values();
    LengthU(v, 10);
  }

  // A signed number from at most nine groups, q being 128 to their number.
  lemma ShortSign(g: nat, v: int, q: nat, negative: bool)
    requires g < q <= TWO63 && g == v + (if negative then q else 0) && -TWO63 <= v
    ensures Int64(if negative then g % TWO64 + TWO64 - q else g % TWO64) == v
  {
    assert g % TWO64 == g;
  }

  // And from ten.
  lemma LongSign(g: nat, v: int, negative: bool)
    requires g == v + (if negative then 64 * TWO64 else 0) && -TWO63 <= v < TWO63
    ensures Int64(g % TWO64) == v
  {
  }

  lemma SignOfGroups(buf: seq<Byte>, p: nat, k: nat, v: int)
    requires 0 < k <= 10 && p + k <= |buf| && -TWO63 <= v < TWO63 && buf[p + k - 1] < 128
    requires Groups(buf, p, p + k) == v + if buf[p + k - 1] >= 64 then Pow128(k) else 0
    ensures Signed(buf, p, p + k) == v
  {
    var e := p + k;
    Pow128Values();
    GroupsBound(buf, p, e);
    hide Groups, Int64;
    if k < 10 {
      Pow128Grows(k, 9);
      hide Pow128;
      ShortSign(Groups(buf, p, e), v, Pow128(k), buf[e - 1] >= 64);
    } else {
      hide Pow128;
      LongSign(Groups(buf, p, e), v, buf[e - 1] >= 64);
    }
  }

  lemma EncodedInContext(pre: seq<Byte>, v: int, post: seq<Byte>, buf: seq<Byte>, k: nat)
    requires buf == pre + EncodeS(v) + post && k == |EncodeS(v)| > 0
    ensures |pre| + k <= |buf| && EndOf(buf, |pre|) == Some(|pre| + k) && buf[|pre| + k - 1] < 128
    ensures Groups(buf, |pre|, |pre| + k) == v + if buf[|pre| + k - 1] >= 64 then Pow128(k) else 0
  {
    hide Pow128, EncodeS, EndOf, Groups;
    EncodedS(v);
    InContext(pre, EncodeS(v), post, 0);
    LastByte(pre, EncodeS(v), post);
  }

  // The same for signed numbers, the ten-byte ones and negative ones included.
  lemma SignedRoundTrip(pre: seq<Byte>, v: int, post: seq<Byte>)
    requires -TWO63 <= v < TWO63
    ensures var n, buf := EncodeS(v), pre + EncodeS(v) + post;
            && 0 < |n| <= 10 && EndOf(buf, |pre|) == Some(|pre| + |n|)
            && Signed(buf, |pre|, |pre| + |n|) == v
  {
    hide Pow128, EncodeS, EndOf, Groups, Signed;
    var buf, k := pre + EncodeS(v) + post, |EncodeS(v)|;
    SignedLength(v);
    EncodedInContext(pre, v, post, buf, k);
    SignOfGroups(buf, |pre|, k, v);
  }

  lemma LastByte(pre: seq<Byte>, n: seq<Byte>, post: seq<Byte>)
    requires n != []
    ensures (pre + n + post)[|pre| + |n| - 1] == n[|n| - 1]
  {
  }

  lemma SignedLength(v: int)
    requires -TWO63 <= v < TWO63
    ensures 0 < |EncodeS(v)| <= 10
  {
    Pow128Values();
    hide Pow128;
    LengthS(v, 10);
  }

  lemma GroupsBelow(buf: seq<Byte>, start: nat, p: nat)
    requires start < p <= |buf| && p - start < 10
    ensures Unsigned(buf, start, p) < Pow128(p - start)
  {
    GroupsFit(buf, start, p);
    GroupsBound(buf, start, p);
  }

  // read_sleb128.
  method ReadSleb128(buf: seq<Byte>, start: nat) returns (v: int, p: nat)
    requires EndOf(buf, start).Some? && EndOf(buf, start).value - start <= 10
    ensures p == EndOf(buf, start).value && v == Signed(buf, start, p)
  {
    hide Pow128, OrGroup, Unsigned, Int64;
    var r, b := 0, 128;
    p := start;
    while b >= 128
      invariant start <= p <= |buf| && p - start <= 10
      invariant b >= 128 ==>
                   p < |buf| && p - start < 10 && EndOf(buf, p) == EndOf(buf, start) && r == Groups(buf, start, p)
      invariant b < 128 ==> EndOf(buf, start) == Some(p) && p > start && b == buf[p - 1] && r == Unsigned(buf, start, p)
      decreases |buf| - p, b
    {
      b := buf[p];
      p := p + 1;
      GroupStep(buf, start, p - 1);
      r := OrGroup(r, b % 128, p - 1 - start);
    }
    if 7 * (p - start) < 64 && b % 128 >= 64 {
      GroupsBelow(buf, start, p);
      OrSignIsSum(r, p - start);
      v := Int64(Or(r, TWO64 - Pow128(p - start)));
    } else {
      v := Int64(r);
    }
  }
}
