/** The growable byte buffer of the serializer and decoder
    (`ByteList.java`): a backing array `data` of which the first `size`
    bytes are in use. */
module ByteLists {
  import opened Wrappers
  import opened Bytes

  const DefaultCapacity: nat := 8

  datatype ByteList = ByteList(data: seq<byte>, size: nat) {

    /** The list never holds more bytes than its backing array. */
    ghost predicate Valid() {
      size <= |data|
    }

    /** The bytes appended so far. */
    function Contents(): seq<byte>
      requires Valid()
    {
      data[..size]
    }
  }

  /** `new ByteList()`: an empty list over an array of eight zero bytes. */
  function New(): (l: ByteList)
    ensures l.Valid() && l.Contents() == []
    ensures |l.data| == DefaultCapacity
  {
    ByteList(seq(DefaultCapacity, _ => 0), 0)
  }

  /** `new ByteList(capacity)`: an empty list over `capacity` zero bytes;
      a negative capacity makes `new byte[capacity]` raise
      `NegativeArraySizeException`. */
  function WithCapacity(capacity: int): (r: Result<ByteList>)
    ensures r.Ok? <==> capacity >= 0
    ensures r.Err? ==> r.error == NegativeArraySize
    ensures r.Ok? ==> r.value.Valid() && r.value.Contents() == [] && |r.value.data| == capacity
  {
    if capacity < 0 then Err(NegativeArraySize)
    else Ok(ByteList(seq(capacity, _ => 0), 0))
  }

  /** `ensureCapacity(requested)`: when the array is too short, copy it
      into one of `max(requested, 2 * length)` bytes; otherwise change
      nothing. */
  function EnsureCapacity(l: ByteList, requested: int): (r: ByteList)
    requires l.Valid()
    ensures r.Valid()
    ensures r.Contents() == l.Contents()
    ensures |r.data| >= requested && |r.data| >= |l.data|
    ensures r.data[..|l.data|] == l.data
    ensures requested <= |l.data| ==> r == l
    ensures requested > |l.data| ==> |r.data| == if requested < 2 * |l.data| then 2 * |l.data| else requested
  {
    if requested > |l.data| then
      var selected := if requested < 2 * |l.data| then 2 * |l.data| else requested;
      ByteList(l.data + seq(selected - |l.data|, _ => 0), l.size)
    else
      l
  }

  /** `appendByte(b)`. */
  function AppendByte(l: ByteList, b: byte): (r: ByteList)
    requires l.Valid()
    ensures r.Valid()
    ensures r.Contents() == l.Contents() + [b]
    ensures |r.data| >= |l.data|
    ensures l.size < |l.data| ==> |r.data| == |l.data|
  {
    var c := EnsureCapacity(l, l.size + 1);
    ByteList(c.data[c.size := b], c.size + 1)
  }

  /** `toByteArray()`: `Arrays.copyOfRange(data, 0, size)`. */
  function ToByteArray(l: ByteList): (r: seq<byte>)
    requires l.Valid()
    ensures |r| == l.size
  {
    l.data[..l.size]
  }

  /** Append `bytes` in order, as the serializer's and decoder's loops do. */
  function AppendAll(l: ByteList, bytes: seq<byte>): (r: ByteList)
    requires l.Valid()
    ensures r.Valid()
    decreases |bytes|
  {
    if |bytes| == 0 then l else AppendAll(AppendByte(l, bytes[0]), bytes[1..])
  }

  /** Appending never loses a byte: `toByteArray` returns exactly the
      bytes appended, in append order, whatever the starting capacity. */
  lemma {:induction false} AppendAllContents(l: ByteList, bytes: seq<byte>)
    requires l.Valid()
    ensures ToByteArray(AppendAll(l, bytes)) == ToByteArray(l) + bytes
    decreases |bytes|
  {
    if |bytes| > 0 {
      var l1 := AppendByte(l, bytes[0]);
      assert AppendAll(l, bytes) == AppendAll(l1, bytes[1..]);
      AppendAllContents(l1, bytes[1..]);
      assert ToByteArray(l1) == ToByteArray(l) + [bytes[0]];
      assert (ToByteArray(l) + [bytes[0]]) + bytes[1..] == ToByteArray(l) + bytes;
    }
  }

  /** A list whose array already has room for every byte appended never
      reallocates. */
  lemma {:induction false} AppendAllInPlace(l: ByteList, bytes: seq<byte>)
    requires l.Valid()
    requires l.size + |bytes| <= |l.data|
    ensures |AppendAll(l, bytes).data| == |l.data|
    decreases |bytes|
  {
    if |bytes| > 0 {
      AppendAllInPlace(AppendByte(l, bytes[0]), bytes[1..]);
    }
  }
}
