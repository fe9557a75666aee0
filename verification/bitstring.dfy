/** The growable bit string of the compressor (`BitString.java`).

    The Java class keeps its bits in an array of `long`s, bit `k` of long
    `i` holding bit `64 * i + k` of the string; `storage` below is that
    array flattened into one sequence of bits. `capacity` is the
    `storageCapacity` field and `size` the `size` field. Bits at or beyond
    `size` are kept: `removeLastBit` and `clear` only lower `size`, so the
    storage may hold stale bits past the end of the string. The abstract
    value of a bit string is `Bits()`, the first `size` stored bits. */
module BitStrings {
  import opened Wrappers
  import opened Bytes

  const BitsPerLong: nat := 64
  const DefaultNumberOfLongs: nat := 2

  /** Number of longs needed for `bits` bits:
      `bits / 64 + ((bits & 63) == 0 ? 0 : 1)`. */
  function LongsFor(bits: nat): (r: nat)
    ensures BitsPerLong * r >= bits
    ensures BitsPerLong * r < bits + BitsPerLong
  {
    bits / BitsPerLong + (if bits % BitsPerLong == 0 then 0 else 1)
  }

  datatype BitString = BitString(storage: seq<bool>, capacity: nat, size: nat) {

    /** The class invariant: `size <= storageCapacity`, and the long array
        is exactly long enough for `storageCapacity` bits. */
    ghost predicate Valid() {
      && DefaultNumberOfLongs * BitsPerLong <= capacity
      && size <= capacity
      && |storage| == BitsPerLong * LongsFor(capacity)
    }

    /** The bits this builder represents. */
    function Bits(): seq<bool>
      requires Valid()
    {
      storage[..size]
    }
  }

  /** `Arrays.copyOf` on the long array, one bit at a time: truncates, or
      pads with zero bits. */
  function CopyOf(s: seq<bool>, n: nat): (r: seq<bool>)
    ensures |r| == n
    ensures forall i :: 0 <= i < n && i < |s| ==> r[i] == s[i]
  {
    if n <= |s| then s[..n] else s + seq(n - |s|, _ => false)
  }

  function Max(a: int, b: int): int
  {
    if a < b then b else a
  }

  /** `new BitString()`: two zeroed longs, no bits. */
  function New(): (b: BitString)
    ensures b.Valid() && b.Bits() == []
    ensures b.capacity == DefaultNumberOfLongs * BitsPerLong
  {
    BitString(seq(DefaultNumberOfLongs * BitsPerLong, _ => false),
              DefaultNumberOfLongs * BitsPerLong, 0)
  }

  /** `new BitString(toCopy)`: a distinct builder with the same bits. The
      capacity is `max(size, 128)`, and the copied long array carries
      along whatever stale bits `toCopy` held in the copied longs. */
  function Copy(toCopy: BitString): (b: BitString)
    requires toCopy.Valid()
    ensures b.Valid()
    ensures b.Bits() == toCopy.Bits()
    ensures b.capacity >= b.size
  {
    var capacity := Max(toCopy.size, DefaultNumberOfLongs * BitsPerLong);
    BitString(CopyOf(toCopy.storage, BitsPerLong * LongsFor(capacity)), capacity, toCopy.size)
  }

  /** `checkBitArrayCapacity(requested)`: when the request exceeds the
      capacity, grow to the larger of the requested number of longs and
      1.5 times the current capacity (in whole longs); otherwise change
      nothing. */
  function EnsureCapacity(b: BitString, requested: int): (r: BitString)
    requires b.Valid()
    ensures r.Valid()
    ensures r.Bits() == b.Bits()
    ensures r.capacity >= requested && r.capacity >= b.capacity
    ensures |r.storage| >= |b.storage| && r.storage[..|b.storage|] == b.storage
    ensures requested <= b.capacity ==> r == b
  {
    if requested > b.capacity then
      var requestedWords1 := LongsFor(requested);
      var requestedWords2 := (3 * b.capacity / 2) / BitsPerLong;
      var selected := Max(requestedWords1, requestedWords2);
      assert LongsFor(BitsPerLong * selected) == selected;
      BitString(CopyOf(b.storage, BitsPerLong * selected), BitsPerLong * selected, b.size)
    else
      b
  }

  /** `appendBit(bit)`. */
  function AppendBit(b: BitString, bit: bool): (r: BitString)
    requires b.Valid()
    ensures r.Valid()
    ensures r.Bits() == b.Bits() + [bit]
  {
    var c := EnsureCapacity(b, b.size + 1);
    BitString(c.storage[c.size := bit], c.capacity, c.size + 1)
  }

  /** `readBitImpl(index)`: the stored bit, unchecked. */
  function ReadBitImpl(b: BitString, index: nat): bool
    requires b.Valid() && index < b.size
  {
    b.storage[index]
  }

  /** `appendBitsFrom(other)`: reserve room for both, then append the
      other string's bits one by one. `other` is a value and cannot change. */
  method AppendBitsFrom(b: BitString, other: BitString) returns (r: BitString)
    requires b.Valid() && other.Valid()
    ensures r.Valid()
    ensures r.Bits() == b.Bits() + other.Bits()
    ensures r.capacity >= b.size + other.size
  {
    r := EnsureCapacity(b, b.size + other.size);
    var otherSize := other.size;
    var i := 0;
    while i != otherSize
      invariant 0 <= i <= otherSize
      invariant r.Valid()
      invariant r.Bits() == b.Bits() + other.Bits()[..i]
      invariant r.capacity >= b.size + other.size
    {
      r := AppendBit(r, ReadBitImpl(other, i));
      i := i + 1;
    }
    assert other.Bits()[..otherSize] == other.Bits();
  }

  /** `readBit(index)`, with the checks of `checkAccessIndex`: an empty
      string raises `IllegalStateException`; a negative index or one past
      the end raises `IndexOutOfBoundsException`. */
  function ReadBit(b: BitString, index: int): (r: Result<bool>)
    requires b.Valid()
    ensures r.Ok? <==> 0 <= index < |b.Bits()|
    ensures r.Ok? ==> r.value == b.Bits()[index]
    ensures |b.Bits()| == 0 ==> r == Err(IllegalState)
    ensures |b.Bits()| > 0 && !(0 <= index < |b.Bits()|) ==> r == Err(IndexOutOfBounds)
  {
    if b.size == 0 then Err(IllegalState)
    else if index < 0 then Err(IndexOutOfBounds)
    else if index >= b.size then Err(IndexOutOfBounds)
    else Ok(ReadBitImpl(b, index))
  }

  /** `removeLastBit()`: an empty string raises `IllegalStateException`;
      otherwise only `size` drops, the stored bit stays behind. */
  function RemoveLastBit(b: BitString): (r: Result<BitString>)
    requires b.Valid()
    ensures r.Ok? <==> |b.Bits()| > 0
    ensures r.Err? ==> r.error == IllegalState
    ensures r.Ok? ==> r.value.Valid() && r.value.Bits() == b.Bits()[..|b.Bits()| - 1]
    ensures r.Ok? ==> r.value.storage == b.storage && r.value.capacity == b.capacity
  {
    if b.size == 0 then Err(IllegalState)
    else Ok(b.(size := b.size - 1))
  }

  /** `clear()`: the string becomes empty and keeps its storage. */
  function Clear(b: BitString): (r: BitString)
    requires b.Valid()
    ensures r.Valid() && r.Bits() == []
    ensures r.storage == b.storage && r.capacity == b.capacity
  {
    b.(size := 0)
  }

  /** `getNumberOfBytesOccupied()`: the least number of bytes that hold
      all the bits. */
  function NumberOfBytesOccupied(b: BitString): (r: nat)
    requires b.Valid()
    ensures 8 * r >= |b.Bits()|
    ensures 8 * (r - 1) < |b.Bits()|
  {
    b.size / 8 + (if b.size % 8 == 0 then 0 else 1)
  }

  /** `toByteArray()`: byte `i` is byte `i % 8` of long `i / 8`, which
      holds stored bits `8 * i` to `8 * i + 7`, least significant first.
      Only the bits below `size` are promised; the padding bits of the last
      byte are whatever the storage holds there. */
  function ToByteArray(b: BitString): (r: seq<byte>)
    requires b.Valid()
    ensures |r| == NumberOfBytesOccupied(b)
    ensures forall j :: 0 <= j < |b.Bits()| ==> TestBit(r[j / 8], j % 8) == b.Bits()[j]
  {
    StorageCoversBytes(b);
    var r := PackStorage(b.storage, NumberOfBytesOccupied(b));
    PackStorageBits(b.storage, NumberOfBytesOccupied(b), b.size);
    r
  }

  /** The first `n` bytes of the flattened long array: byte `i` packs
      stored bits `8 * i` to `8 * i + 7`. */
  function PackStorage(storage: seq<bool>, n: nat): (r: seq<byte>)
    requires 8 * n <= |storage|
    ensures |r| == n
    ensures forall i :: 0 <= i < n ==> r[i] == PackByte(storage[8 * i .. 8 * i + 8])
  {
    if n == 0 then [] else PackStorage(storage, n - 1) + [PackByte(storage[8 * (n - 1) .. 8 * n])]
  }

  /** Bit `j` of the packed bytes is stored bit `j`. */
  lemma PackStorageBits(storage: seq<bool>, n: nat, size: nat)
    requires 8 * n <= |storage| && size <= 8 * n
    ensures forall j :: 0 <= j < size ==> TestBit(PackStorage(storage, n)[j / 8], j % 8) == storage[j]
  {
    var r := PackStorage(storage, n);
    forall j | 0 <= j < size ensures TestBit(r[j / 8], j % 8) == storage[j] {
      var i := j / 8;
      assert r[i] == PackByte(storage[8 * i .. 8 * i + 8]);
      assert storage[8 * i .. 8 * i + 8][j % 8] == storage[j];
    }
  }

  /** The long array is large enough for every byte `toByteArray` reads. */
  lemma StorageCoversBytes(b: BitString)
    requires b.Valid()
    ensures 8 * NumberOfBytesOccupied(b) <= |b.storage|
  {
    var longs := LongsFor(b.capacity);
    var q, r := b.size / 8, b.size % 8;
    assert b.size == 8 * q + r && 0 <= r < 8;
    assert |b.storage| == 8 * (8 * longs) >= b.size;
    assert NumberOfBytesOccupied(b) == q + (if r == 0 then 0 else 1);
    if r != 0 {
      assert q < 8 * longs;
    }
  }

  /** A builder holding exactly `s`, made by appending its bits to a new
      builder one at a time. */
  function FromBits(s: seq<bool>): (b: BitString)
    ensures b.Valid() && b.Bits() == s
  {
    if |s| == 0 then New() else AppendBit(FromBits(s[..|s| - 1]), s[|s| - 1])
  }

  /** Appending a bit and removing it again gives back the same bits. */
  lemma AppendThenRemove(b: BitString, bit: bool)
    requires b.Valid()
    ensures RemoveLastBit(AppendBit(b, bit)).Ok?
    ensures RemoveLastBit(AppendBit(b, bit)).value.Bits() == b.Bits()
  {
    var a := AppendBit(b, bit);
    assert a.Bits()[..|a.Bits()| - 1] == b.Bits();
  }

  /** The string `1` left by appending two set bits to a new builder and
      removing the last: its first stored byte still holds the removed bit. */
  lemma StaleStorage()
    ensures RemoveLastBit(AppendBit(AppendBit(New(), true), true)).Ok?
    ensures RemoveLastBit(AppendBit(AppendBit(New(), true), true)).value.size == 1
    ensures RemoveLastBit(AppendBit(AppendBit(New(), true), true)).value.storage[..8]
         == [true, true, false, false, false, false, false, false]
  {
    var e := New();
    var b1 := AppendBit(e, true);
    assert EnsureCapacity(e, 1) == e;
    var b := AppendBit(b1, true);
    assert EnsureCapacity(b1, 2) == b1;
    assert b.storage == e.storage[0 := true][1 := true];
  }

  /** The byte packed from bits `1, 1, 0, 0, 0, 0, 0, 0`. */
  lemma PackThree()
    ensures PackByte([true, true, false, false, false, false, false, false]) == 3
  {
    var low := [true, true, false, false, false, false, false, false];
    assert Weigh(low[8..]) == 0;
    assert Weigh(low[7..]) == 0;
    assert Weigh(low[6..]) == 0;
    assert Weigh(low[5..]) == 0;
    assert Weigh(low[4..]) == 0;
    assert Weigh(low[3..]) == 0;
    assert Weigh(low[2..]) == 0;
    assert Weigh(low[1..]) == 1;
  }

  /** The padding bits of `toByteArray` need not be zero: append two set
      bits, remove the last, and the one-bit string `1` packs into the
      byte `0b11`, not `0b01`. */
  lemma StalePaddingBit()
    ensures RemoveLastBit(AppendBit(AppendBit(New(), true), true)).Ok?
    ensures RemoveLastBit(AppendBit(AppendBit(New(), true), true)).value.Bits() == [true]
    ensures ToByteArray(RemoveLastBit(AppendBit(AppendBit(New(), true), true)).value) == [3]
  {
    StaleStorage();
    var c := RemoveLastBit(AppendBit(AppendBit(New(), true), true)).value;
    assert NumberOfBytesOccupied(c) == 1;
    assert ToByteArray(c) == [PackByte(c.storage[..8])];
    PackThree();
  }
}
