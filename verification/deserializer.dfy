/** The deserializer (`HuffmanDeserializer.java`). It reads the header
    the serializer writes, then a table in code-word form (byte value,
    length byte `L`, then `ceil(L / 8)` bytes holding the code word least
    significant bit first), then the packed encoded text. Every read past
    the end of the input becomes `InvalidFileFormatException`. */
module HuffmanDeserializer {
  import opened Wrappers
  import opened Bytes
  import opened Codes
  import BitStrings
  import HuffmanSerializer

  /** Bytes one table entry takes: byte value, length byte, code bits. */
  function EntryCost(w: seq<bool>): int
  {
    2 + Ceil8(|w|)
  }

  /** `checkSignature(data)`: fails when the input is shorter than the
      signature or differs from it in one of its four bytes. */
  function CheckSignature(data: seq<byte>): (r: Result<()>)
    ensures r.Ok? <==> |data| >= 4 && data[..4] == HuffmanSerializer.Magic
    ensures r.Err? ==> r.error == InvalidFileFormat
  {
    if |data| < 4 then Err(InvalidFileFormat)
    else if exists i :: 0 <= i < 4 && data[i] != HuffmanSerializer.Magic[i] then Err(InvalidFileFormat)
    else Ok(())
  }

  /** `extractNumberOfCodeWords(data)`: the unsigned little-endian value of
      bytes 4 to 7; the Java `int` it is kept in is negative from 2^31 on. */
  function ExtractNumberOfCodeWords(data: seq<byte>): (r: Result<nat>)
    ensures r.Ok? <==> |data| >= 8
    ensures r.Err? ==> r.error == InvalidFileFormat
    ensures r.Ok? ==> r.value < TwoTo32 && LE32(r.value) == data[4..8]
  {
    if |data| < 8 then Err(InvalidFileFormat)
    else
      LE32ReadBack(data, 4);
      Ok(ReadLE32(data, 4))
  }

  /** `extractNumberOfEncodedTextBits(data)`: bytes 8 to 11, likewise. */
  function ExtractNumberOfEncodedTextBits(data: seq<byte>): (r: Result<nat>)
    ensures r.Ok? <==> |data| >= 12
    ensures r.Err? ==> r.error == InvalidFileFormat
    ensures r.Ok? ==> r.value < TwoTo32 && LE32(r.value) == data[8..12]
  {
    if |data| < 12 then Err(InvalidFileFormat)
    else
      LE32ReadBack(data, 8);
      Ok(ReadLE32(data, 8))
  }

  /** One table entry as read: a byte value and its code word. */
  datatype TableEntry = TableEntry(c: byte, word: seq<bool>)

  /** Bytes the entries take in the input. */
  function TableBytes(entries: seq<TableEntry>): nat
  {
    if |entries| == 0 then 0 else EntryCost(entries[0].word) + TableBytes(entries[1..])
  }

  /** Every code word fits a length byte the Java `byte` reads as
      non-negative. */
  predicate ShortWords(entries: seq<TableEntry>)
    decreases |entries|
  {
    |entries| > 0 ==> |entries[0].word| < 0x80 && ShortWords(entries[1..])
  }

  /** One entry of the table walk of `extractEncoderMap` at byte
      `cursor`: the byte value, the length byte, and the code word packed
      into the bytes after them; and the cursor after the entry. A length
      byte of 0x80 or more is a negative Java `byte`; the inner loop then
      runs until its `int` counter wraps around, which needs more than
      2^28 further bytes, and is modelled as the read past the end it is
      for any smaller input. */
  function ReadEntry(data: seq<byte>, cursor: nat): (r: Result<(TableEntry, nat)>)
    ensures r.Err? ==> r.error == InvalidFileFormat
    ensures r.Ok? <==> && cursor + 2 <= |data| && data[cursor + 1] < 0x80
                       && (data[cursor + 1] == 0 || cursor + 2 + Ceil8(data[cursor + 1]) <= |data|)
    ensures r.Ok? ==> r.value.1 == cursor + EntryCost(r.value.0.word) <= |data|
    ensures r.Ok? ==> r.value.0.c == data[cursor] && |r.value.0.word| == data[cursor + 1] < 0x80
    ensures r.Ok? ==> forall j :: 0 <= j < |r.value.0.word| ==>
                        r.value.0.word[j] == TestBit(data[cursor + 2 + j / 8], j % 8)
  {
    if cursor + 2 > |data| then Err(InvalidFileFormat)
    else
      var length := data[cursor + 1];
      if length >= 0x80 then Err(InvalidFileFormat)
      else if length > 0 && cursor + 2 + Ceil8(length) > |data| then Err(InvalidFileFormat)
      else Ok((TableEntry(data[cursor], UnpackBits(data, cursor + 2, length)), cursor + 2 + Ceil8(length)))
  }

  /** The `count` entries of the table walk of `extractEncoderMap` from
      byte `cursor`, and the cursor after them. */
  function ReadTable(data: seq<byte>, count: nat, cursor: nat): (r: Result<(seq<TableEntry>, nat)>)
    ensures r.Err? ==> r.error == InvalidFileFormat
    ensures r.Ok? ==> |r.value.0| == count
    decreases count
  {
    if count == 0 then Ok(([], cursor))
    else
      var head := ReadEntry(data, cursor);
      if head.Err? then Err(InvalidFileFormat)
      else
        var tail := ReadTable(data, count - 1, head.value.1);
        if tail.Err? then tail
        else Ok(([head.value.0] + tail.value.0, tail.value.1))
  }

  /** The table walk ends right after the entries it read, inside the
      data, and every code word it read has a non-negative length byte. */
  lemma {:induction false} ReadTableCursor(data: seq<byte>, count: nat, cursor: nat)
    requires ReadTable(data, count, cursor).Ok?
    ensures ReadTable(data, count, cursor).value.1 == cursor + TableBytes(ReadTable(data, count, cursor).value.0)
    ensures count > 0 ==> ReadTable(data, count, cursor).value.1 <= |data|
    ensures ShortWords(ReadTable(data, count, cursor).value.0)
    decreases count
  {
    if count > 0 {
      var head := ReadEntry(data, cursor);
      var tail := ReadTable(data, count - 1, head.value.1);
      ReadTableCursor(data, count - 1, head.value.1);
      var entries := ReadTable(data, count, cursor).value.0;
      assert entries[0] == head.value.0;
      assert entries[1..] == tail.value.0;
    }
  }

  /** Entry `k` of `entries` is the entry read at the byte where entry
      `k - 1` ended, that is, after the bytes of the entries before it,
      and the cursor moves past it. */
  ghost predicate ReadsEntryAt(data: seq<byte>, cursor: nat, entries: seq<TableEntry>, k: nat)
    requires k < |entries|
  {
    ReadEntry(data, cursor + TableBytes(entries[..k])) == Ok((entries[k], cursor + TableBytes(entries[..k + 1])))
  }

  /** Every entry of a table walk is read where the one before it ended. */
  lemma ReadTableEntries(data: seq<byte>, count: nat, cursor: nat, entries: seq<TableEntry>, end: nat)
    requires ReadTable(data, count, cursor) == Ok((entries, end))
    ensures |entries| == count && forall k :: 0 <= k < count ==> ReadsEntryAt(data, cursor, entries, k)
  {
    forall k | 0 <= k < count
      ensures ReadsEntryAt(data, cursor, entries, k)
    {
      ReadTableEntryAt(data, count, cursor, entries, end, k);
    }
  }

  lemma ReadTableEntryAt(data: seq<byte>, count: nat, cursor: nat, entries: seq<TableEntry>, end: nat, k: nat)
    requires ReadTable(data, count, cursor) == Ok((entries, end)) && k < count
    ensures |entries| == count && ReadsEntryAt(data, cursor, entries, k)
  {
    var at := cursor + TableBytes(entries[..k]);
    ReadTableSuffix(data, count, cursor, entries, end, k, at, count - k);
    ReadTableFirst(data, count - k, at, entries[k..], end);
    var e, after := entries[k], cursor + TableBytes(entries[..k + 1]);
    assert entries[k..][0] == e;
    assert entries[..k + 1] == entries[..k] + [e];
    TableBytesSnoc(entries[..k], e);
    assert at + EntryCost(e.word) == after;
  }

  /** The first entry of a walk is the entry read at its cursor. */
  lemma ReadTableFirst(data: seq<byte>, n: nat, at: nat, entries: seq<TableEntry>, end: nat)
    requires n > 0 && ReadTable(data, n, at) == Ok((entries, end))
    ensures |entries| > 0 && ReadEntry(data, at) == Ok((entries[0], at + EntryCost(entries[0].word)))
  {
    var e, next, rest := ReadTableHead(data, n, at);
  }

  /** The walk of the `n = count - k` entries from `at`, where entry `k`
      starts, reads the rest of the table and ends where the whole walk
      ends. */
  lemma {:induction false} ReadTableSuffix(data: seq<byte>, count: nat, cursor: nat, entries: seq<TableEntry>, end: nat,
                                           k: nat, at: nat, n: nat)
    requires ReadTable(data, count, cursor) == Ok((entries, end))
    requires k + n == count && at == cursor + TableBytes(entries[..k])
    ensures ReadTable(data, n, at) == Ok((entries[k..], end))
    decreases k
  {
    if k == 0 {
      assert entries[..k] == [] && entries[k..] == entries;
    } else {
      var e, next, rest := ReadTableHead(data, count, cursor);
      PrefixBytes(e, rest, k - 1);
      assert entries == [e] + rest;
      assert ReadTable(data, count - 1, next) == Ok((rest, end));
      assert at == next + TableBytes(rest[..k - 1]);
      assert entries[k..] == rest[k - 1..];
      ReadTableSuffix(data, count - 1, next, rest, end, k - 1, at, n);
    }
  }

  lemma {:induction false} TableBytesSnoc(entries: seq<TableEntry>, e: TableEntry)
    ensures TableBytes(entries + [e]) == TableBytes(entries) + EntryCost(e.word)
    decreases |entries|
  {
    if |entries| > 0 {
      assert (entries + [e])[1..] == entries[1..] + [e];
      TableBytesSnoc(entries[1..], e);
    } else {
      assert entries + [e] == [e];
    }
  }

  /** Entry `k` of `[e] + rest` and the bytes of the entries before and
      up to it, in terms of `rest`. */
  lemma PrefixBytes(e: TableEntry, rest: seq<TableEntry>, k: nat)
    requires k <= |rest|
    ensures TableBytes(([e] + rest)[..k + 1]) == EntryCost(e.word) + TableBytes(rest[..k])
    ensures k == 0 ==> TableBytes(([e] + rest)[..k]) == 0 && ([e] + rest)[k] == e
    ensures k > 0 ==> && TableBytes(([e] + rest)[..k]) == EntryCost(e.word) + TableBytes(rest[..k - 1])
                      && ([e] + rest)[k] == rest[k - 1]
  {
    assert ([e] + rest)[..k + 1] == [e] + rest[..k];
    TableBytesCons(e, rest[..k]);
    if k > 0 {
      assert ([e] + rest)[..k] == [e] + rest[..k - 1];
      TableBytesCons(e, rest[..k - 1]);
    } else {
      assert ([e] + rest)[..k] == [];
    }
  }

  /** A table walk of at least one entry is the entry read at the cursor,
      then the walk from the byte after it. */
  lemma ReadTableHead(data: seq<byte>, count: nat, cursor: nat) returns (e: TableEntry, next: nat, rest: seq<TableEntry>)
    requires count > 0 && ReadTable(data, count, cursor).Ok?
    ensures ReadEntry(data, cursor) == Ok((e, next)) && next == cursor + EntryCost(e.word)
    ensures ReadTable(data, count - 1, next) == Ok((rest, ReadTable(data, count, cursor).value.1))
    ensures ReadTable(data, count, cursor).value.0 == [e] + rest
  {
    e, next := ReadEntry(data, cursor).value.0, ReadEntry(data, cursor).value.1;
    rest := ReadTable(data, count - 1, next).value.0;
  }

  lemma TableBytesCons(e: TableEntry, entries: seq<TableEntry>)
    ensures TableBytes([e] + entries) == EntryCost(e.word) + TableBytes(entries)
  {
    assert ([e] + entries)[1..] == entries;
  }

  /** The map the entries leave behind when put into `m` in order: a later
      entry for the same byte value overwrites an earlier one. */
  function PutAll(m: CodeMap, entries: seq<TableEntry>): (r: CodeMap)
    decreases |entries|
  {
    if |entries| == 0 then m
    else PutAll(m[entries[0].c := entries[0].word], entries[1..])
  }

  /** `extractEncoderMap(data, numberOfCodeWords)`. A count of 2^31 or
      more is a negative Java `int`: the loop would need 2^31 entries of at
      least two bytes, more than a Java array holds, and fails. */
  function ExtractEncoderMap(data: seq<byte>, numberOfCodeWords: nat): (r: Result<CodeMap>)
    ensures r.Err? ==> r.error == InvalidFileFormat
    ensures r.Ok? <==> numberOfCodeWords < TwoTo31 && ReadTable(data, numberOfCodeWords, HuffmanSerializer.HeaderSize).Ok?
  {
    if numberOfCodeWords >= TwoTo31 then Err(InvalidFileFormat)
    else
      var (entries, _) :- ReadTable(data, numberOfCodeWords, HuffmanSerializer.HeaderSize);
      Ok(PutAll(map[], entries))
  }

  /** When the walk from byte 12 reads `entries`, the encoder map holds
      exactly their byte values, each with the code word of its last
      entry; with `ReadTableEntries`, entry `k` is the one read where
      entry `k - 1` ended. */
  lemma ExtractEncoderMapContent(data: seq<byte>, count: nat, entries: seq<TableEntry>, end: nat)
    requires count < TwoTo31 && ReadTable(data, count, HuffmanSerializer.HeaderSize) == Ok((entries, end))
    ensures ExtractEncoderMap(data, count).Ok?
    ensures forall c :: c in ExtractEncoderMap(data, count).value <==>
              exists k :: 0 <= k < |entries| && entries[k].c == c
    ensures forall k :: 0 <= k < |entries| && (forall j :: k < j < |entries| ==> entries[j].c != entries[k].c)
              ==> ExtractEncoderMap(data, count).value[entries[k].c] == entries[k].word
  {
    PutAllLastWins(map[], entries);
  }

  /** The offset `extractEncodedText` computes for the payload:
      12 plus two bytes and the code-word bytes of each map entry. */
  function PayloadOffset(m: CodeMap): nat
  {
    EntryCostSumNonNegative(m);
    HuffmanSerializer.HeaderSize + MapSum(m, EntryCost)
  }

  /** `extractEncodedText(data, encoderMap, numberOfEncodedTextBits)`:
      exactly `numberOfBits` bits, bit `j` being bit `j % 8` of payload
      byte `j / 8`. A count of 2^31 or more is a negative Java `int`; the
      model treats it as the failure it is on any input shorter than
      2^28 bytes. */
  function ExtractEncodedText(data: seq<byte>, m: CodeMap, numberOfBits: nat): (r: Result<seq<bool>>)
    ensures r.Err? ==> r.error == InvalidFileFormat
    ensures r.Ok? <==> numberOfBits < TwoTo31
                       && (numberOfBits == 0 || PayloadOffset(m) + Ceil8(numberOfBits) <= |data|)
    ensures r.Ok? ==> |r.value| == numberOfBits
                      && forall j :: 0 <= j < numberOfBits ==>
                           r.value[j] == TestBit(data[PayloadOffset(m) + j / 8], j % 8)
  {
    var offset := PayloadOffset(m);
    if numberOfBits >= TwoTo31 then Err(InvalidFileFormat)
    else if numberOfBits > 0 && offset + Ceil8(numberOfBits) > |data| then Err(InvalidFileFormat)
    else
      Ok(UnpackBits(data, offset, numberOfBits))
  }

  /** `deserialize(data)`: the encoded text and the encoder map. */
  function Deserialize(data: seq<byte>): (r: Result<(BitStrings.BitString, CodeMap)>)
    ensures r.Err? ==> r.error == InvalidFileFormat
    ensures r.Ok? <==> && |data| >= 12 && data[..4] == HuffmanSerializer.Magic
                       && ExtractEncoderMap(data, ReadLE32(data, 4)).Ok?
                       && ExtractEncodedText(data, ExtractEncoderMap(data, ReadLE32(data, 4)).value,
                                             ReadLE32(data, 8)).Ok?
    ensures r.Ok? ==> r.value.0.Valid() && |r.value.0.Bits()| == ReadLE32(data, 8)
    ensures r.Ok? ==> |r.value.1| <= ReadLE32(data, 4)
    ensures r.Ok? ==> ExtractEncoderMap(data, ReadLE32(data, 4)) == Ok(r.value.1)
    ensures r.Ok? ==> ExtractEncodedText(data, r.value.1, ReadLE32(data, 8)) == Ok(r.value.0.Bits())
  {
    var _ :- CheckSignature(data);
    var numberOfCodeWords :- ExtractNumberOfCodeWords(data);
    var numberOfBits :- ExtractNumberOfEncodedTextBits(data);
    var encoderMap :- ExtractEncoderMap(data, numberOfCodeWords);
    var bits :- ExtractEncodedText(data, encoderMap, numberOfBits);
    ReadTableMapSize(data, numberOfCodeWords);
    Ok((BitStrings.FromBits(bits), encoderMap))
  }

  /** The bits of a deserialized text are the payload bits: bit `j` is
      bit `j % 8` of byte `j / 8` after the offset the map gives, and the
      payload lies inside the data. */
  lemma DeserializedBits(data: seq<byte>)
    requires Deserialize(data).Ok?
    ensures |Deserialize(data).value.0.Bits()| == 0
            || PayloadOffset(Deserialize(data).value.1) + Ceil8(|Deserialize(data).value.0.Bits()|) <= |data|
    ensures forall j :: 0 <= j < |Deserialize(data).value.0.Bits()| ==>
              Deserialize(data).value.0.Bits()[j] == TestBit(data[PayloadOffset(Deserialize(data).value.1) + j / 8], j % 8)
  {
  }

  lemma EntryCostSumNonNegative(m: CodeMap)
    ensures MapSum(m, EntryCost) >= 0
  {
    assert forall v :: EntryCost(v) >= 0;
    MapSumNonNegative(m, EntryCost);
  }

  /** The map has at most one key per entry read. */
  lemma ReadTableMapSize(data: seq<byte>, count: nat)
    requires count < TwoTo31
    ensures ExtractEncoderMap(data, count).Ok? ==> |ExtractEncoderMap(data, count).value| <= count
  {
    var read := ReadTable(data, count, HuffmanSerializer.HeaderSize);
    if read.Ok? {
      PutAllSize(map[], read.value.0);
    }
  }

  lemma {:induction false} PutAllSize(m: CodeMap, entries: seq<TableEntry>)
    ensures |PutAll(m, entries)| <= |m| + |entries|
    decreases |entries|
  {
    if |entries| > 0 {
      var m' := m[entries[0].c := entries[0].word];
      assert m'.Keys == m.Keys + {entries[0].c};
      PutAllSize(m', entries[1..]);
    }
  }

  /** A later entry for a byte value wins: the map holds, for each byte
      value of the entries, the word of its last entry, and `m`'s word for
      every other key of `m`. */
  lemma {:induction false} PutAllLastWins(m: CodeMap, entries: seq<TableEntry>)
    ensures forall c :: c in PutAll(m, entries) <==>
              c in m || exists i :: 0 <= i < |entries| && entries[i].c == c
    ensures forall i :: 0 <= i < |entries| && (forall j :: i < j < |entries| ==> entries[j].c != entries[i].c)
              ==> PutAll(m, entries)[entries[i].c] == entries[i].word
    ensures forall c :: c in m && (forall i :: 0 <= i < |entries| ==> entries[i].c != c)
              ==> PutAll(m, entries)[c] == m[c]
    decreases |entries|
  {
    if |entries| > 0 {
      var m' := m[entries[0].c := entries[0].word];
      var rest := entries[1..];
      PutAllLastWins(m', rest);
      forall c ensures c in PutAll(m, entries) <==>
                       c in m || exists i :: 0 <= i < |entries| && entries[i].c == c {
        if exists i :: 0 <= i < |rest| && rest[i].c == c {
          var i :| 0 <= i < |rest| && rest[i].c == c;
          assert entries[i + 1].c == c;
        }
        if exists i :: 0 <= i < |entries| && entries[i].c == c {
          var i :| 0 <= i < |entries| && entries[i].c == c;
          if i > 0 { assert rest[i - 1].c == c; }
        }
      }
      forall i | 0 <= i < |entries| && (forall j :: i < j < |entries| ==> entries[j].c != entries[i].c)
        ensures PutAll(m, entries)[entries[i].c] == entries[i].word
      {
        if i > 0 {
          assert forall j :: i - 1 < j < |rest| ==> rest[j].c == entries[j + 1].c;
        } else {
          assert forall j :: 0 <= j < |rest| ==> rest[j].c == entries[j + 1].c;
        }
      }
      forall c | c in m && (forall i :: 0 <= i < |entries| ==> entries[i].c != c)
        ensures PutAll(m, entries)[c] == m[c]
      {
        assert entries[0].c != c;
        assert forall i :: 0 <= i < |rest| ==> rest[i].c == entries[i + 1].c;
      }
    }
  }

  /** No two entries share a byte value, and none is a key of `m`. */
  predicate FreshKeys(m: CodeMap, entries: seq<TableEntry>)
  {
    && (forall i :: 0 <= i < |entries| ==> entries[i].c !in m)
    && (forall i, j :: 0 <= i < j < |entries| ==> entries[i].c != entries[j].c)
  }

  /** The cost of the map after the puts is at most the bytes the entries
      take, and equal to it exactly when every put adds a new key: a
      repeated byte value is counted once in the map but read twice. */
  lemma {:induction false} PutAllCost(m: CodeMap, entries: seq<TableEntry>)
    ensures MapSum(PutAll(m, entries), EntryCost) <= MapSum(m, EntryCost) + TableBytes(entries)
    ensures MapSum(PutAll(m, entries), EntryCost) == MapSum(m, EntryCost) + TableBytes(entries)
            <==> FreshKeys(m, entries)
    decreases |entries|
  {
    if |entries| > 0 {
      var e := entries[0];
      var m' := m[e.c := e.word];
      var rest := entries[1..];
      MapSumUpdate(m, e.c, e.word, EntryCost);
      PutAllCost(m', rest);
      if FreshKeys(m, entries) {
        assert forall i :: 0 <= i < |rest| ==> rest[i].c == entries[i + 1].c;
        assert FreshKeys(m', rest);
      }
      if FreshKeys(m', rest) && e.c !in m {
        forall i, j | 0 <= i < j < |entries| ensures entries[i].c != entries[j].c {
          if i > 0 { assert rest[i - 1].c == entries[i].c && rest[j - 1].c == entries[j].c; }
          else { assert rest[j - 1].c == entries[j].c; }
        }
        forall i | 0 <= i < |entries| ensures entries[i].c !in m {
          if i > 0 { assert rest[i - 1].c == entries[i].c; }
        }
      }
    }
  }

  /** The payload offset `extractEncodedText` computes equals the cursor
      the table walk ends at when the table's byte values are distinct,
      and falls short of it otherwise. */
  lemma PayloadOffsetMatchesCursor(data: seq<byte>, count: nat)
    requires ReadTable(data, count, HuffmanSerializer.HeaderSize).Ok?
    ensures PayloadOffset(PutAll(map[], ReadTable(data, count, HuffmanSerializer.HeaderSize).value.0))
            <= ReadTable(data, count, HuffmanSerializer.HeaderSize).value.1
    ensures PayloadOffset(PutAll(map[], ReadTable(data, count, HuffmanSerializer.HeaderSize).value.0))
            == ReadTable(data, count, HuffmanSerializer.HeaderSize).value.1
            <==> FreshKeys(map[], ReadTable(data, count, HuffmanSerializer.HeaderSize).value.0)
  {
    var entries := ReadTable(data, count, HuffmanSerializer.HeaderSize).value.0;
    ReadTableCursor(data, count, HuffmanSerializer.HeaderSize);
    PutAllCost(map[], entries);
    MapSumEmpty(EntryCost);
  }

  /** Two entries for the byte value 5 with the code word `1`: the walk
      reads six table bytes, the offset counts three. */
  lemma RepeatedByteShiftsPayload()
    ensures var entries := [TableEntry(5, [true]), TableEntry(5, [true])];
            TableBytes(entries) == 6 && MapSum(PutAll(map[], entries), EntryCost) == 3
  {
    var entries := [TableEntry(5, [true]), TableEntry(5, [true])];
    assert EntryCost([true]) == 3;
    assert TableBytes(entries[1..][1..]) == 0;
    var m1: CodeMap := map[5 := [true]];
    assert PutAll(map[], entries) == PutAll(m1, entries[1..]);
    assert PutAll(m1, entries[1..]) == PutAll(m1, entries[1..][1..]) == m1;
    MapSumEmpty(EntryCost);
    MapSumUpdate(map[], 5, [true], EntryCost);
    assert map[][5 := [true]] == m1;
  }

  /** The serializer's output passes the signature check, and its two
      counts read back as the number of table entries and the number of
      encoded bits modulo 2^32. */
  lemma SerializedHeaderReads(freq: map<byte, Int32>, order: seq<byte>, text: BitStrings.BitString)
    requires HuffmanSerializer.Enumerates(order, freq) && text.Valid()
    ensures CheckSignature(HuffmanSerializer.Serialize(freq, order, text)).Ok?
    ensures ExtractNumberOfCodeWords(HuffmanSerializer.Serialize(freq, order, text)) == Ok(|freq|)
    ensures ExtractNumberOfEncodedTextBits(HuffmanSerializer.Serialize(freq, order, text))
            == Ok(|text.Bits()| % TwoTo32)
  {
    HuffmanSerializer.SerializeHeader(freq, order, text);
  }

  /** Reading `length` bits least significant bit first from the bytes of
      `toByteArray()` gives the bits back. */
  lemma PackingRoundTrip(b: BitStrings.BitString)
    requires b.Valid()
    ensures Ceil8(|b.Bits()|) == |BitStrings.ToByteArray(b)|
    ensures UnpackBits(BitStrings.ToByteArray(b), 0, |b.Bits()|) == b.Bits()
  {
  }

  /** `extractEncodedText` reads back a packed bit string found at the
      payload offset. */
  lemma PayloadReadBack(data: seq<byte>, m: CodeMap, b: BitStrings.BitString)
    requires b.Valid() && |b.Bits()| < TwoTo31
    requires PayloadOffset(m) + BitStrings.NumberOfBytesOccupied(b) <= |data|
    requires data[PayloadOffset(m) .. PayloadOffset(m) + BitStrings.NumberOfBytesOccupied(b)]
             == BitStrings.ToByteArray(b)
    ensures ExtractEncodedText(data, m, |b.Bits()|) == Ok(b.Bits())
  {
    var off := PayloadOffset(m);
    PackingRoundTrip(b);
    UnpackPlaced(data, off, BitStrings.ToByteArray(b), |b.Bits()|);
  }

  /** The code-word form of a table entry the reader expects: byte value,
      length byte, then the word packed least significant bit first with
      zero padding. */
  function WriteEntry(e: TableEntry): (r: seq<byte>)
    requires |e.word| < 0x80
    ensures |r| == EntryCost(e.word)
  {
    [e.c, |e.word|] + PackWord(e.word)
  }

  function WriteTable(entries: seq<TableEntry>): (r: seq<byte>)
    requires ShortWords(entries)
    ensures |r| == TableBytes(entries)
  {
    if |entries| == 0 then [] else WriteEntry(entries[0]) + WriteTable(entries[1..])
  }

  /** Bits read from bytes placed at `start` are the bits read from
      those bytes alone. */
  lemma UnpackPlaced(data: seq<byte>, start: nat, packed: seq<byte>, count: nat)
    requires count == 0 || Ceil8(count) <= |packed|
    requires start + |packed| <= |data| && data[start .. start + |packed|] == packed
    ensures UnpackBits(data, start, count) == UnpackBits(packed, 0, count)
  {
    forall j | 0 <= j < count ensures UnpackBits(data, start, count)[j] == UnpackBits(packed, 0, count)[j] {
      assert data[start + j / 8] == packed[j / 8];
    }
  }

  /** The code word packed eight bits to a byte, least significant bit
      first, as `toByteArray()` packs it, with zero padding bits. */
  function PackWord(w: seq<bool>): (r: seq<byte>)
    ensures |r| == Ceil8(|w|)
    decreases |w|
  {
    if |w| == 0 then []
    else if |w| <= 8 then [PackByte(w + seq(8 - |w|, _ => false))]
    else [PackByte(w[..8])] + PackWord(w[8..])
  }

  /** A packed code word unpacks to itself. */
  lemma {:induction false} PackWordUnpacks(w: seq<bool>)
    ensures UnpackBits(PackWord(w), 0, |w|) == w
    decreases |w|
  {
    if 0 < |w| <= 8 {
      var padded := w + seq(8 - |w|, _ => false);
      UnpackPackByte(padded, |w|);
      assert padded[..|w|] == w;
    } else if 8 < |w| {
      var head, tail := PackByte(w[..8]), PackWord(w[8..]);
      assert PackWord(w) == [head] + tail;
      PackWordUnpacks(w[8..]);
      assert UnpackBits(tail, 0, |w| - 8) == w[8..];
      UnpackCons(head, tail, |w|);
      UnpackPackByte(w[..8], 8);
      assert UnpackBits([head], 0, 8) == w[..8];
      assert w[..8] + w[8..] == w;
    }
  }

  /** The bytes of an entry written in code-word form, wherever they lie
      in the data: its byte value, its length, and its code word packed. */
  lemma WrittenEntryFields(data: seq<byte>, cursor: nat, e: TableEntry)
    requires |e.word| < 0x80
    requires Placed(data, cursor, WriteEntry(e))
    ensures cursor + 2 + Ceil8(|e.word|) <= |data|
    ensures data[cursor] == e.c && data[cursor + 1] == |e.word|
    ensures UnpackBits(data, cursor + 2, |e.word|) == e.word
  {
    var packed := PackWord(e.word);
    PackWordUnpacks(e.word);
    PlacedSlice(data, cursor, WriteEntry(e));
    var written := data[cursor .. cursor + 2 + |packed|];
    assert written == [e.c, |e.word|] + packed;
    assert data[cursor] == written[0];
    assert data[cursor + 1] == written[1];
    assert data[cursor + 2 .. cursor + 2 + |packed|] == written[2..];
    UnpackPlaced(data, cursor + 2, packed, |e.word|);
  }

  /** One entry written in code-word form, wherever it lies in the data,
      is read back by one step of the table walk: `WriteEntry` and
      `ReadEntry` are inverse. */
  lemma ReadWrittenEntry(data: seq<byte>, cursor: nat, e: TableEntry)
    requires |e.word| < 0x80
    requires Placed(data, cursor, WriteEntry(e))
    ensures ReadEntry(data, cursor) == Ok((e, cursor + |WriteEntry(e)|))
  {
    WrittenEntryFields(data, cursor, e);
  }

  /** One step of the table walk followed by the rest of the walk. */
  lemma {:induction false} ReadTableCons(data: seq<byte>, cursor: nat, entries: seq<TableEntry>, next: nat)
    requires |entries| > 0
    requires ReadEntry(data, cursor) == Ok((entries[0], next))
    requires ReadTable(data, |entries[1..]|, next).Ok?
    requires ReadTable(data, |entries[1..]|, next).value.0 == entries[1..]
    ensures ReadTable(data, |entries|, cursor).Ok? && ReadTable(data, |entries|, cursor).value.0 == entries
  {
    assert [entries[0]] + entries[1..] == entries;
  }

  /** A written table is its first entry followed by the rest. */
  lemma {:induction false} WriteTableCons(entries: seq<TableEntry>)
    requires |entries| > 0 && ShortWords(entries)
    ensures ShortWords(entries[1..])
    ensures WriteTable(entries) == WriteEntry(entries[0]) + WriteTable(entries[1..])
  {
  }

  /** The first entry of a written table is read back by one step of
      the table walk, which stops where the rest of the table begins. */
  lemma WrittenHead(data: seq<byte>, cursor: nat, entries: seq<TableEntry>) returns (next: nat)
    requires |entries| > 0 && ShortWords(entries)
    requires Placed(data, cursor, WriteTable(entries))
    ensures ShortWords(entries[1..])
    ensures Placed(data, next, WriteTable(entries[1..]))
    ensures ReadEntry(data, cursor) == Ok((entries[0], next))
  {
    WriteTableCons(entries);
    PlacedSplit(data, cursor, WriteEntry(entries[0]), WriteTable(entries[1..]));
    ReadWrittenEntry(data, cursor, entries[0]);
    next := cursor + |WriteEntry(entries[0])|;
  }

  /** The bytes of a table written in code-word form, wherever they lie
      in the data, are read back by the table walk: the same entries, in
      order. */
  lemma {:induction false} ReadWrittenTable(data: seq<byte>, cursor: nat, entries: seq<TableEntry>)
    requires ShortWords(entries)
    requires Placed(data, cursor, WriteTable(entries))
    ensures ReadTable(data, |entries|, cursor).Ok? && ReadTable(data, |entries|, cursor).value.0 == entries
    decreases |entries|
  {
    if |entries| > 0 {
      var next := WrittenHead(data, cursor, entries);
      ReadWrittenTable(data, next, entries[1..]);
      ReadTableCons(data, cursor, entries, next);
    }
  }

  /** `part` lies in `data` from index `at` on. */
  ghost predicate Placed<T>(data: seq<T>, at: nat, part: seq<T>)
    decreases |part|
  {
    if |part| == 0 then at <= |data|
    else at < |data| && data[at] == part[0] && Placed(data, at + 1, part[1..])
  }

  lemma {:induction false} PlacedSlice<T>(data: seq<T>, at: nat, part: seq<T>)
    ensures Placed(data, at, part) <==> at + |part| <= |data| && data[at .. at + |part|] == part
    decreases |part|
  {
    if |part| > 0 {
      PlacedSlice(data, at + 1, part[1..]);
      if at + |part| <= |data| {
        assert data[at .. at + |part|] == [data[at]] + data[at + 1 .. at + |part|];
        assert part == [part[0]] + part[1..];
      }
    }
  }

  /** A slice holding two parts holds each part at its place. */
  lemma SliceSplit<T>(data: seq<T>, at: nat, a: seq<T>, b: seq<T>)
    requires at + |a| + |b| <= |data| && data[at .. at + |a| + |b|] == a + b
    ensures data[at .. at + |a|] == a
    ensures data[at + |a| .. at + |a| + |b|] == b
  {
    assert data[at .. at + |a|] == (a + b)[..|a|];
    assert data[at + |a| .. at + |a| + |b|] == (a + b)[|a|..];
  }

  /** Two parts that lie in the data one after the other. */
  lemma PlacedSplit<T>(data: seq<T>, at: nat, a: seq<T>, b: seq<T>)
    requires Placed(data, at, a + b)
    ensures Placed(data, at, a) && Placed(data, at + |a|, b)
  {
    PlacedSlice(data, at, a + b);
    SliceSplit(data, at, a, b);
    PlacedSlice(data, at, a);
    PlacedSlice(data, at + |a|, b);
  }

  /** The middle of a concatenation lies right after its beginning. */
  lemma PlacedConcat<T>(before: seq<T>, middle: seq<T>, after: seq<T>)
    ensures Placed(before + middle + after, |before|, middle)
  {
    var data := before + middle + after;
    assert data[|before| .. |before| + |middle|] == middle;
    PlacedSlice(data, |before|, middle);
  }

  /** The table walk reads back a table written in code-word form
      wherever it is placed: the same entries, in order, ending right
      after the table. */
  lemma {:induction false} ReadTableInverse(before: seq<byte>, entries: seq<TableEntry>, after: seq<byte>)
    requires ShortWords(entries)
    ensures ReadTable(before + WriteTable(entries) + after, |entries|, |before|)
         == Ok((entries, |before| + TableBytes(entries)))
  {
    PlacedConcat(before, WriteTable(entries), after);
    ReadPlacedTable(before + WriteTable(entries) + after, |before|, entries);
  }

  lemma ReadPlacedTable(data: seq<byte>, cursor: nat, entries: seq<TableEntry>)
    requires ShortWords(entries) && Placed(data, cursor, WriteTable(entries))
    ensures ReadTable(data, |entries|, cursor) == Ok((entries, cursor + TableBytes(entries)))
  {
    ReadWrittenTable(data, cursor, entries);
    ReadTableCursor(data, |entries|, cursor);
    var r := ReadTable(data, |entries|, cursor);
    assert r.value == (entries, cursor + TableBytes(entries));
  }
}
