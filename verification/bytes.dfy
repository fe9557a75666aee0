/** Byte-level helpers shared by the bit string and the wire format:
    ceiling division by eight, single-bit tests, least-significant-bit-first
    packing of bits into a byte, little-endian 32-bit integers and sums
    over the 256 possible keys of a byte-keyed map. */
module Bytes {

  /** An unsigned byte: the bit pattern of a Java `byte`. */
  type byte = x: int | 0 <= x < 256

  const TwoTo31: int := 0x8000_0000
  const TwoTo32: int := 0x1_0000_0000

  /** A Java `int`. */
  type Int32 = x: int | -TwoTo31 <= x < TwoTo31

  function Pow2(k: nat): nat
  {
    if k == 0 then 1 else 2 * Pow2(k - 1)
  }

  /** Number of bytes needed for `n` bits, the source's
      `n / 8 + (n % 8 == 0 ? 0 : 1)`: the least `r` with `8 * r >= n`. */
  function Ceil8(n: nat): (r: nat)
    ensures 8 * r >= n
    ensures 8 * r < n + 8
    ensures n == 0 <==> r == 0
  {
    if n == 0 then 0 else if n <= 8 then 1 else 1 + Ceil8(n - 8)
  }

  /** Bit `k` of `x`, counted from the least significant bit; for a byte
      and `k < 8` this is the source's `(x & (1 << k)) != 0`. */
  predicate TestBit(x: nat, k: nat)
  {
    if k == 0 then x % 2 == 1 else TestBit(x / 2, k - 1)
  }

  function BitValue(b: bool): nat
  {
    if b then 1 else 0
  }

  /** The number whose bit `k` is `bits[k]`. */
  function Weigh(bits: seq<bool>): (x: nat)
    ensures x < Pow2(|bits|)
    ensures forall k :: 0 <= k < |bits| ==> TestBit(x, k) == bits[k]
  {
    if |bits| == 0 then 0
    else
      var rest := Weigh(bits[1..]);
      var x := BitValue(bits[0]) + 2 * rest;
      assert x / 2 == rest;
      assert forall k :: 1 <= k < |bits| ==> TestBit(x, k) == TestBit(rest, k - 1) == bits[k];
      x
  }

  /** The byte whose bit `k` (least significant first) is `bits[k]`. */
  function PackByte(bits: seq<bool>): (x: byte)
    requires |bits| == 8
    ensures forall k :: 0 <= k < 8 ==> TestBit(x, k) == bits[k]
  {
    assert Pow2(8) == 256;
    Weigh(bits)
  }

  /** `count` bits read least-significant-bit first from the bytes of
      `data` starting at byte `start`, one bit after the other. */
  function UnpackBits(data: seq<byte>, start: nat, count: nat): (r: seq<bool>)
    requires count == 0 || start + Ceil8(count) <= |data|
    ensures |r| == count
  {
    seq(count, j requires 0 <= j < count => TestBit(data[start + j / 8], j % 8))
  }

  /** The first `n` bits read from a packed byte are the first `n` bits
      it was packed from. */
  lemma UnpackPackByte(bits: seq<bool>, n: nat)
    requires |bits| == 8 && n <= 8
    ensures UnpackBits([PackByte(bits)], 0, n) == bits[..n]
  {
  }

  /** Reading past a first byte continues with the bytes after it. */
  lemma UnpackCons(x: byte, rest: seq<byte>, count: nat)
    requires 8 < count && Ceil8(count - 8) <= |rest|
    ensures UnpackBits([x] + rest, 0, count) == UnpackBits([x], 0, 8) + UnpackBits(rest, 0, count - 8)
  {
    var data := [x] + rest;
    var whole, head, tail := UnpackBits(data, 0, count), UnpackBits([x], 0, 8), UnpackBits(rest, 0, count - 8);
    forall j | 0 <= j < 8 ensures whole[j] == head[j] {
      assert j / 8 == 0;
    }
    forall j | 8 <= j < count ensures whole[j] == tail[j - 8] {
      assert (j - 8) / 8 == j / 8 - 1 && (j - 8) % 8 == j % 8;
      assert data[j / 8] == rest[(j - 8) / 8];
    }
    assert whole == head + tail;
  }

  /** The four bytes the serializer emits for a Java `int` n:
      `(byte)(n & 0xff)`, then `(byte)((n >>= 8) & 0xff)` three times.
      The arithmetic shift of a negative `int` yields the bytes of its
      two's complement, which is `n` modulo 2^32. */
  function LE32(n: int): (r: seq<byte>)
    ensures |r| == 4
  {
    var q0 := n % TwoTo32;
    var q1 := q0 / 256;
    var q2 := q1 / 256;
    var q3 := q2 / 256;
    [q0 % 256, q1 % 256, q2 % 256, q3 % 256]
  }

  /** The unsigned value `b0 | b1 << 8 | b2 << 16 | b3 << 24` of the four
      bytes at `at` (the four shifted bytes do not overlap, so `|` is `+`). */
  function ReadLE32(data: seq<byte>, at: nat): (r: nat)
    requires at + 4 <= |data|
    ensures r < TwoTo32
  {
    var b0, b1, b2, b3: int := data[at], data[at + 1], data[at + 2], data[at + 3];
    b0 + 0x100 * b1 + 0x1_0000 * b2 + 0x100_0000 * b3
  }

  /** Writing a Java `int` and reading the four bytes back yields its
      32-bit two's complement pattern; for a non-negative `int` that is the
      value itself. */
  lemma LE32RoundTrip(n: int)
    ensures ReadLE32(LE32(n), 0) == n % TwoTo32
    ensures 0 <= n < TwoTo32 ==> ReadLE32(LE32(n), 0) == n
  {
    var q0 := n % TwoTo32;
    var q1 := q0 / 256;
    var q2 := q1 / 256;
    var q3 := q2 / 256;
    assert q0 == q0 % 256 + 256 * q1;
    assert q1 == q1 % 256 + 256 * q2;
    assert q2 == q2 % 256 + 256 * q3;
    assert q3 < 256;
  }

  /** Reading four bytes depends on those four bytes only. */
  lemma ReadLE32At(data: seq<byte>, at: nat, word: seq<byte>)
    requires at + 4 <= |data| && data[at..at + 4] == word
    ensures ReadLE32(data, at) == ReadLE32(word, 0)
  {
    assert data[at] == word[0] && data[at + 1] == word[1];
    assert data[at + 2] == word[2] && data[at + 3] == word[3];
  }

  /** Every four bytes are the serializer's bytes of the value they are
      read as: the reader and the writer are inverse on 32-bit values. */
  lemma LE32ReadBack(data: seq<byte>, at: nat)
    requires at + 4 <= |data|
    ensures LE32(ReadLE32(data, at)) == data[at..at + 4]
  {
    var b0, b1, b2, b3: int := data[at], data[at + 1], data[at + 2], data[at + 3];
    var x := ReadLE32(data, at);
    assert x % TwoTo32 == x;
    assert x / 256 == b1 + 0x100 * b2 + 0x1_0000 * b3;
    assert x / 256 / 256 == b2 + 0x100 * b3;
    assert x / 256 / 256 / 256 == b3;
  }

  /** A byte-keyed map has at most 256 entries. */
  lemma MapSizeAtMost256<V>(m: map<byte, V>)
    ensures |m| <= 256
  {
    KeysBelow(m.Keys, 256);
  }

  lemma {:induction false} KeysBelow(keys: set<byte>, n: nat)
    requires forall x :: x in keys ==> x < n
    ensures |keys| <= n
  {
    if n > 0 {
      var rest := keys - {n - 1};
      KeysBelow(rest, n - 1);
    } else {
      assert keys == {};
    }
  }

  /** Sum of `cost(m[k])` over the keys `k` of `m` that are at least `from`. */
  function SumFrom<V>(m: map<byte, V>, cost: V -> int, from: nat): int
    decreases 256 - from
  {
    if from >= 256 then 0
    else (if from in m then cost(m[from]) else 0) + SumFrom(m, cost, from + 1)
  }

  /** Sum of `cost(v)` over all entries `(k, v)` of a byte-keyed map; the
      order of the entries does not matter, as with a Java map walk. */
  function MapSum<V>(m: map<byte, V>, cost: V -> int): int
  {
    SumFrom(m, cost, 0)
  }

  lemma {:induction false} SumFromEmpty<V>(cost: V -> int, from: nat)
    ensures SumFrom(map[], cost, from) == 0
    decreases 256 - from
  {
    if from < 256 {
      SumFromEmpty(cost, from + 1);
    }
  }

  lemma {:induction false} SumFromUpdate<V>(m: map<byte, V>, c: byte, v: V, cost: V -> int, from: nat)
    ensures SumFrom(m[c := v], cost, from)
         == SumFrom(m, cost, from)
            + (if from <= c then cost(v) - (if c in m then cost(m[c]) else 0) else 0)
    decreases 256 - from
  {
    if from < 256 {
      SumFromUpdate(m, c, v, cost, from + 1);
    }
  }

  /** The empty map sums to zero. */
  lemma MapSumEmpty<V>(cost: V -> int)
    ensures MapSum(map[], cost) == 0
  {
    SumFromEmpty(cost, 0);
  }

  /** Putting `v` under `c` replaces the cost of the old entry, if any, by
      the cost of `v`. */
  lemma MapSumUpdate<V>(m: map<byte, V>, c: byte, v: V, cost: V -> int)
    ensures MapSum(m[c := v], cost)
         == MapSum(m, cost) + cost(v) - (if c in m then cost(m[c]) else 0)
  {
    SumFromUpdate(m, c, v, cost, 0);
  }

  /** Non-negative costs have a non-negative sum. */
  lemma MapSumNonNegative<V>(m: map<byte, V>, cost: V -> int)
    requires forall v :: cost(v) >= 0
    ensures MapSum(m, cost) >= 0
  {
    SumFromNonNegative(m, cost, 0);
  }

  lemma {:induction false} SumFromNonNegative<V>(m: map<byte, V>, cost: V -> int, from: nat)
    requires forall v :: cost(v) >= 0
    ensures SumFrom(m, cost, from) >= 0
    decreases 256 - from
  {
    if from < 256 {
      SumFromNonNegative(m, cost, from + 1);
    }
  }
}
