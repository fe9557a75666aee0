/** The serializer (`HuffmanSerializer.java`): the magic signature, the
    number of table entries and of encoded bits as little-endian 32-bit
    integers, one five-byte entry (byte value, then its 32-bit frequency)
    per map entry, and the packed encoded text. */
module HuffmanSerializer {
  import opened Bytes
  import BitStrings
  import ByteLists

  /** The file type signature `C0 DE 0D DE`. */
  const Magic: seq<byte> := [0xC0, 0xDE, 0x0D, 0xDE]

  const BytesPerWeightMapEntry: nat := 5
  const BytesPerCodeWordCountEntry: nat := 4
  const BytesPerBitCountEntry: nat := 4

  /** Offset of the first table entry. */
  const HeaderSize: nat := |Magic| + BytesPerCodeWordCountEntry + BytesPerBitCountEntry

  /** `order` lists every key of `freq` exactly once: the iteration order
      of the Java map, which the source leaves to the map. */
  predicate Enumerates(order: seq<byte>, freq: map<byte, Int32>)
  {
    && (forall i :: 0 <= i < |order| ==> order[i] in freq)
    && (forall c :: c in freq ==> c in order)
    && (forall i, j :: 0 <= i < j < |order| ==> order[i] != order[j])
  }

  /** A duplicate-free enumeration is as long as the map. */
  lemma EnumerationLength(order: seq<byte>, freq: map<byte, Int32>)
    requires Enumerates(order, freq)
    ensures |order| == |freq|
  {
    var keys := set i | 0 <= i < |order| :: order[i];
    assert keys == freq.Keys;
    CardinalityOfDistinct(order);
  }

  lemma {:induction false} CardinalityOfDistinct(s: seq<byte>)
    requires forall i, j :: 0 <= i < j < |s| ==> s[i] != s[j]
    ensures |set i | 0 <= i < |s| :: s[i]| == |s|
  {
    if |s| > 0 {
      var init := s[..|s| - 1];
      CardinalityOfDistinct(init);
      var a := set i | 0 <= i < |init| :: init[i];
      var b := set i | 0 <= i < |s| :: s[i];
      assert b == a + {s[|s| - 1]};
      assert s[|s| - 1] !in a;
    }
  }

  /** The five bytes of one table entry: the byte value, then its
      frequency as four little-endian bytes. */
  function Entry(c: byte, frequency: Int32): (r: seq<byte>)
    ensures |r| == BytesPerWeightMapEntry
  {
    [c] + LE32(frequency)
  }

  /** The table entries for the keys in `order`, in that order. */
  function Entries(freq: map<byte, Int32>, order: seq<byte>): (r: seq<byte>)
    requires forall i :: 0 <= i < |order| ==> order[i] in freq
    ensures |r| == BytesPerWeightMapEntry * |order|
  {
    if |order| == 0 then []
    else Entry(order[0], freq[order[0]]) + Entries(freq, order[1..])
  }

  /** Entry `i` of the table starts at byte `5 * i`. */
  lemma {:induction false} EntriesLayout(freq: map<byte, Int32>, order: seq<byte>, i: nat)
    requires forall i :: 0 <= i < |order| ==> order[i] in freq
    requires i < |order|
    ensures Entries(freq, order)[5 * i .. 5 * i + 5] == Entry(order[i], freq[order[i]])
  {
    var e := Entries(freq, order);
    if i > 0 {
      EntriesLayout(freq, order[1..], i - 1);
      var tail := Entries(freq, order[1..]);
      assert e == Entry(order[0], freq[order[0]]) + tail;
      assert e[5 * i .. 5 * i + 5] == tail[5 * (i - 1) .. 5 * (i - 1) + 5];
    }
  }

  /** `serialize(frequencyMap, encodedText)`, with the map's iteration
      order made explicit. */
  function Serialize(freq: map<byte, Int32>, order: seq<byte>, text: BitStrings.BitString): (r: seq<byte>)
    requires Enumerates(order, freq) && text.Valid()
    ensures |r| == HeaderSize + BytesPerWeightMapEntry * |freq| + BitStrings.NumberOfBytesOccupied(text)
  {
    EnumerationLength(order, freq);
    Magic + LE32(|freq|) + LE32(text.size) + Entries(freq, order) + BitStrings.ToByteArray(text)
  }

  /** The header: the signature, then the number of table entries and the
      number of encoded bits, read back as the deserializer reads them. The
      counts are written as Java `int`s, so a bit count of 2^32 or more
      reads back modulo 2^32. */
  lemma SerializeHeader(freq: map<byte, Int32>, order: seq<byte>, text: BitStrings.BitString)
    requires Enumerates(order, freq) && text.Valid()
    ensures Serialize(freq, order, text)[..4] == Magic
    ensures ReadLE32(Serialize(freq, order, text), 4) == |freq|
    ensures ReadLE32(Serialize(freq, order, text), 8) == |text.Bits()| % TwoTo32
  {
    EnumerationLength(order, freq);
    MapSizeAtMost256(freq);
    assert |freq| % TwoTo32 == |freq|;
    HeaderLayout(|freq|, text.size, Entries(freq, order), BitStrings.ToByteArray(text));
  }

  /** Whatever follows the header, the header reads back. */
  lemma HeaderLayout(count: int, bits: int, table: seq<byte>, payload: seq<byte>)
    ensures (Magic + LE32(count) + LE32(bits) + table + payload)[..4] == Magic
    ensures ReadLE32(Magic + LE32(count) + LE32(bits) + table + payload, 4) == count % TwoTo32
    ensures ReadLE32(Magic + LE32(count) + LE32(bits) + table + payload, 8) == bits % TwoTo32
  {
    var r := Magic + LE32(count) + LE32(bits) + table + payload;
    assert r[4..8] == LE32(count);
    ReadLE32At(r, 4, LE32(count));
    LE32RoundTrip(count);
    assert r[8..12] == LE32(bits);
    ReadLE32At(r, 8, LE32(bits));
    LE32RoundTrip(bits);
  }

  /** Table entry `i` sits at `12 + 5 * i`: the `i`-th byte value in
      iteration order, then its frequency as a 32-bit pattern. */
  lemma SerializeTable(freq: map<byte, Int32>, order: seq<byte>, text: BitStrings.BitString, i: nat)
    requires Enumerates(order, freq) && text.Valid()
    requires i < |order|
    ensures Serialize(freq, order, text)[HeaderSize + 5 * i] == order[i]
    ensures ReadLE32(Serialize(freq, order, text), HeaderSize + 5 * i + 1) == freq[order[i]] % TwoTo32
  {
    var header := Magic + LE32(|freq|) + LE32(text.size);
    EntriesLayout(freq, order, i);
    EntryLayout(header, Entries(freq, order), BitStrings.ToByteArray(text), i, order[i], freq[order[i]]);
  }

  /** An entry at `5 * i` of a table that follows the header reads back. */
  lemma EntryLayout(header: seq<byte>, table: seq<byte>, payload: seq<byte>, i: nat, c: byte, f: Int32)
    requires |header| == HeaderSize && 5 * i + 5 <= |table|
    requires table[5 * i .. 5 * i + 5] == Entry(c, f)
    ensures (header + table + payload)[HeaderSize + 5 * i] == c
    ensures ReadLE32(header + table + payload, HeaderSize + 5 * i + 1) == f % TwoTo32
  {
    var r := header + table + payload;
    var at := HeaderSize + 5 * i;
    assert r[at .. at + 5] == table[5 * i .. 5 * i + 5];
    assert r[at] == Entry(c, f)[0];
    assert r[at + 1 .. at + 5] == LE32(f);
    ReadLE32At(r, at + 1, LE32(f));
    LE32RoundTrip(f);
  }

  /** The output ends with the packed encoded text. */
  lemma SerializePayload(freq: map<byte, Int32>, order: seq<byte>, text: BitStrings.BitString)
    requires Enumerates(order, freq) && text.Valid()
    ensures Serialize(freq, order, text)[HeaderSize + BytesPerWeightMapEntry * |freq|..]
         == BitStrings.ToByteArray(text)
  {
    EnumerationLength(order, freq);
    var front := Magic + LE32(|freq|) + LE32(text.size) + Entries(freq, order);
    assert Serialize(freq, order, text) == front + BitStrings.ToByteArray(text);
    assert |front| == HeaderSize + BytesPerWeightMapEntry * |freq|;
  }

  /** `computeByteListSize(frequencyMap, encodedText)`. */
  function ComputeByteListSize(freq: map<byte, Int32>, text: BitStrings.BitString): (n: nat)
    requires text.Valid()
  {
    |Magic| + BytesPerCodeWordCountEntry + BytesPerBitCountEntry
    + |freq| * BytesPerWeightMapEntry + BitStrings.NumberOfBytesOccupied(text)
  }

  /** Appends into a list whose array has room for the bytes. */
  function AppendInPlace(list: ByteLists.ByteList, bytes: seq<byte>): (r: ByteLists.ByteList)
    requires list.Valid() && list.size + |bytes| <= |list.data|
    ensures r.Valid() && |r.data| == |list.data|
    ensures ByteLists.ToByteArray(r) == ByteLists.ToByteArray(list) + bytes
    ensures r.size == list.size + |bytes|
  {
    ByteLists.AppendAllInPlace(list, bytes);
    ByteLists.AppendAllContents(list, bytes);
    ByteLists.AppendAll(list, bytes)
  }

  /** The serializer's loop over a byte list created with the capacity
      `computeByteListSize` returns: the list receives exactly the bytes
      of `Serialize` and its array is exactly full, so it never grows. */
  method SerializeToList(freq: map<byte, Int32>, order: seq<byte>, text: BitStrings.BitString)
    returns (r: seq<byte>, list: ByteLists.ByteList)
    requires Enumerates(order, freq) && text.Valid()
    ensures list.Valid() && r == ByteLists.ToByteArray(list)
    ensures r == Serialize(freq, order, text)
    ensures |list.data| == ComputeByteListSize(freq, text) == |r|
  {
    EnumerationLength(order, freq);
    var capacity := ComputeByteListSize(freq, text);
    var created := ByteLists.WithCapacity(capacity);
    list := created.value;
    assert ByteLists.ToByteArray(list) == [];
    var header := Magic + LE32(|freq|) + LE32(text.size);
    var payload := BitStrings.ToByteArray(text);
    list := AppendInPlace(list, header);
    assert ByteLists.ToByteArray(list) == header;
    list := AppendEntries(list, freq, order);
    assert ByteLists.ToByteArray(list) == header + Entries(freq, order);
    list := AppendInPlace(list, payload);
    r := ByteLists.ToByteArray(list);
  }

  /** The serializer's loop over the weight map: one five-byte entry per
      key, in iteration order, into a list with room for all of them. */
  method AppendEntries(list: ByteLists.ByteList, freq: map<byte, Int32>, order: seq<byte>)
    returns (r: ByteLists.ByteList)
    requires forall i :: 0 <= i < |order| ==> order[i] in freq
    requires list.Valid() && list.size + 5 * |order| <= |list.data|
    ensures r.Valid() && |r.data| == |list.data| && r.size == list.size + 5 * |order|
    ensures ByteLists.ToByteArray(r) == ByteLists.ToByteArray(list) + Entries(freq, order)
  {
    r := list;
    var i := 0;
    while i < |order|
      invariant 0 <= i <= |order|
      invariant r.Valid() && |r.data| == |list.data|
      invariant r.size == list.size + 5 * i
      invariant ByteLists.ToByteArray(r) == ByteLists.ToByteArray(list) + Entries(freq, order[..i])
    {
      var entry := Entry(order[i], freq[order[i]]);
      EntriesSnoc(freq, order, i);
      assert ByteLists.ToByteArray(list) + Entries(freq, order[..i + 1])
          == (ByteLists.ToByteArray(list) + Entries(freq, order[..i])) + entry;
      r := AppendInPlace(r, entry);
      i := i + 1;
    }
    assert order[..i] == order;
  }

  /** The entries of a prefix one longer end with the next entry. */
  lemma {:induction false} EntriesSnoc(freq: map<byte, Int32>, order: seq<byte>, i: nat)
    requires forall i :: 0 <= i < |order| ==> order[i] in freq
    requires i < |order|
    ensures Entries(freq, order[..i + 1]) == Entries(freq, order[..i]) + Entry(order[i], freq[order[i]])
    decreases i
  {
    if i > 0 {
      EntriesSnoc(freq, order[1..], i - 1);
      assert order[1..][..i] == order[..i + 1][1..];
      assert order[1..][..i - 1] == order[..i][1..];
    } else {
      assert order[..1][1..] == [];
    }
  }
}
