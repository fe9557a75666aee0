/** The decoder (`HuffmanDecoder.java`): a table walk over the encoded
    bits. Bits accumulate until they equal a code word; that code word's
    byte is emitted and the accumulator starts over. */
module HuffmanDecoder {
  import opened Wrappers
  import opened Bytes
  import opened Codes
  import opened HuffmanEncoder
  import BitStrings
  import ByteLists

  /** A decoder map: code word to byte value. */
  type DecoderMap = map<seq<bool>, byte>

  /** The walk of `decode` from a state where `acc` holds the bits read
      since the last emission: append the next bit; if the accumulated
      bits are a key, emit its byte and clear. Bits left over at the end
      that complete no key are dropped without an error. */
  function Walk(bits: seq<bool>, acc: seq<bool>, dm: DecoderMap): (r: seq<byte>)
    ensures |r| <= |bits|
    decreases |bits|
  {
    if |bits| == 0 then []
    else
      var accumulated := acc + [bits[0]];
      if accumulated in dm then [dm[accumulated]] + Walk(bits[1..], [], dm)
      else Walk(bits[1..], accumulated, dm)
  }

  /** The inverse of an injective code map. */
  ghost function Inverse(m: CodeMap): (dm: DecoderMap)
    requires Injective(m)
    ensures forall w :: w in dm <==> w in m.Values
    ensures forall c :: c in m ==> m[c] in dm && dm[m[c]] == c
  {
    var dm := map w | w in m.Values :: var c :| c in m && m[c] == w; c;
    assert forall c :: c in m ==> m[c] in m.Values;
    dm
  }

  /** `invertEncoderMap(encoderMap)`: for each entry, in an unspecified
      order, put code word to byte value. When two byte values share a
      code word, the one put last wins. */
  method InvertEncoderMap(m: CodeMap) returns (dm: DecoderMap)
    ensures forall w :: w in dm <==> w in m.Values
    ensures forall w :: w in dm ==> dm[w] in m && m[dm[w]] == w
    ensures Injective(m) ==> dm == Inverse(m)
  {
    dm := map[];
    var rest := m.Keys;
    while rest != {}
      invariant rest <= m.Keys
      invariant forall c :: c in m.Keys - rest ==> m[c] in dm
      invariant forall w :: w in dm ==> dm[w] in m.Keys - rest && m[dm[w]] == w
      decreases rest
    {
      var c :| c in rest;
      dm := dm[m[c] := c];
      rest := rest - {c};
    }
    assert forall w :: w in m.Values ==> w in dm;
    if Injective(m) {
      var inv := Inverse(m);
      assert forall w :: w in dm ==> dm[w] == inv[w];
    }
  }

  /** `decode(bits, encoderMap)`: invert the map, then read the bits one
      by one into an accumulator, emitting a byte into a byte list each
      time the accumulator equals a code word. The output never has more
      bytes than the input has bits. */
  method Decode(bits: BitStrings.BitString, encoderMap: CodeMap) returns (text: seq<byte>)
    requires bits.Valid()
    ensures |text| <= |bits.Bits()|
    ensures bits.Bits() == [] ==> text == []
    ensures Injective(encoderMap) ==> text == Walk(bits.Bits(), [], Inverse(encoderMap))
  {
    var decoderMap := InvertEncoderMap(encoderMap);
    text := DecodeWith(bits, decoderMap);
  }

  /** The loop of `decode` over an already inverted map. */
  method DecodeWith(bits: BitStrings.BitString, decoderMap: DecoderMap) returns (text: seq<byte>)
    requires bits.Valid()
    ensures text == Walk(bits.Bits(), [], decoderMap)
  {
    var byteList := ByteLists.New();
    var bitAccumulator := BitStrings.New();
    var totalBits := bits.size;
    ghost var input := bits.Bits();
    var bitIndex := 0;
    while bitIndex != totalBits
      invariant 0 <= bitIndex <= totalBits == |input|
      invariant byteList.Valid() && bitAccumulator.Valid()
      invariant byteList.Contents() + Walk(input[bitIndex..], bitAccumulator.Bits(), decoderMap)
             == Walk(input, [], decoderMap)
    {
      byteList, bitAccumulator := DecodeStep(bits, bitIndex, byteList, bitAccumulator, decoderMap);
      bitIndex := bitIndex + 1;
    }
    text := ByteLists.ToByteArray(byteList);
    assert input[totalBits..] == [];
  }

  /** One pass of the loop of `decode`: read bit `bitIndex`, append it to
      the accumulator, and when the accumulated bits are a key, append its
      byte to the output and clear the accumulator. The output so far
      followed by the walk over the remaining bits stays the same. */
  method DecodeStep(bits: BitStrings.BitString, bitIndex: nat, byteList: ByteLists.ByteList,
                    bitAccumulator: BitStrings.BitString, decoderMap: DecoderMap)
    returns (byteList': ByteLists.ByteList, bitAccumulator': BitStrings.BitString)
    requires bits.Valid() && byteList.Valid() && bitAccumulator.Valid()
    requires bitIndex < bits.size
    ensures byteList'.Valid() && bitAccumulator'.Valid()
    ensures byteList'.Contents() + Walk(bits.Bits()[bitIndex + 1..], bitAccumulator'.Bits(), decoderMap)
         == byteList.Contents() + Walk(bits.Bits()[bitIndex..], bitAccumulator.Bits(), decoderMap)
  {
    var bit := BitStrings.ReadBit(bits, bitIndex);
    ghost var done := byteList.Contents();
    ghost var rest := bits.Bits()[bitIndex + 1..];
    ghost var accumulated := bitAccumulator.Bits() + [bits.Bits()[bitIndex]];
    WalkStep(bits.Bits(), bitIndex, bitAccumulator.Bits(), decoderMap);
    bitAccumulator' := BitStrings.AppendBit(bitAccumulator, bit.value);
    assert bitAccumulator'.Bits() == accumulated;
    byteList' := byteList;
    if bitAccumulator'.Bits() in decoderMap {
      var c := decoderMap[bitAccumulator'.Bits()];
      byteList' := ByteLists.AppendByte(byteList, c);
      bitAccumulator' := BitStrings.Clear(bitAccumulator');
      assert byteList'.Contents() + Walk(rest, [], decoderMap) == done + ([c] + Walk(rest, [], decoderMap));
    }
  }

  /** One step of the walk from position `i`. */
  lemma WalkStep(bits: seq<bool>, i: nat, acc: seq<bool>, dm: DecoderMap)
    requires i < |bits|
    ensures var accumulated := acc + [bits[i]];
            Walk(bits[i..], acc, dm)
            == if accumulated in dm then [dm[accumulated]] + Walk(bits[i + 1..], [], dm)
               else Walk(bits[i + 1..], accumulated, dm)
  {
    assert bits[i..][0] == bits[i];
    assert bits[i..][1..] == bits[i + 1..];
  }

  /** Reading a code word from just after a point `k` inside it where no
      longer proper prefix is a key emits its byte and clears. */
  lemma {:induction false} WalkThroughWord(dm: DecoderMap, w: seq<bool>, k: nat, rest: seq<bool>)
    requires w in dm && k < |w|
    requires forall j :: k < j < |w| ==> w[..j] !in dm
    ensures Walk(w[k..] + rest, w[..k], dm) == [dm[w]] + Walk(rest, [], dm)
    decreases |w| - k
  {
    var bits := w[k..] + rest;
    assert bits[0] == w[k];
    assert w[..k] + [w[k]] == w[..k + 1];
    assert bits[1..] == w[k + 1..] + rest;
    if k + 1 < |w| {
      WalkThroughWord(dm, w, k + 1, rest);
    } else {
      assert w[..k + 1] == w;
      assert w[k + 1..] + rest == rest;
    }
  }

  /** `dm` inverts `m`: it sends each code word to its byte value, and
      each of its keys is a code word. */
  ghost predicate InverseOf(dm: DecoderMap, m: CodeMap)
  {
    && (forall c :: c in m ==> m[c] in dm && dm[m[c]] == c)
    && (forall w :: w in dm ==> dm[w] in m && m[dm[w]] == w)
  }

  /** The inverse of an injective map inverts it. */
  lemma InverseInverts(m: CodeMap)
    requires Injective(m)
    ensures InverseOf(Inverse(m), m)
  {
    var dm := Inverse(m);
    forall w | w in dm ensures dm[w] in m && m[dm[w]] == w {
      var c :| c in m && m[c] == w;
    }
  }

  /** `dm` reads back every code word of `m`: each code word maps to its
      byte and none of its proper non-empty prefixes is a key. */
  ghost predicate ReadsWords(m: CodeMap, dm: DecoderMap)
  {
    forall c :: c in m ==>
      && m[c] in dm && dm[m[c]] == c
      && forall j :: 0 < j < |m[c]| ==> m[c][..j] !in dm
  }

  /** A map that inverts a prefix code reads back its code words: a proper
      prefix of a code word is no key, since the byte value it would name
      has a code word that is a prefix of another. */
  lemma InverseReadsWords(m: CodeMap, dm: DecoderMap)
    requires PrefixCode(m) && InverseOf(dm, m)
    ensures ReadsWords(m, dm)
  {
    forall c, j | c in m && 0 < j < |m[c]| ensures m[c][..j] !in dm {
      if m[c][..j] in dm {
        var c' := dm[m[c][..j]];
        assert IsPrefix(m[c'], m[c]);
      }
    }
  }

  /** Decoding the code word of `c` followed by anything emits `c` first. */
  lemma DecodeWord(m: CodeMap, dm: DecoderMap, c: byte, rest: seq<bool>)
    requires ReadsWords(m, dm) && c in m && |m[c]| > 0
    ensures Walk(m[c] + rest, [], dm) == [c] + Walk(rest, [], dm)
  {
    var w := m[c];
    WalkThroughWord(dm, w, 0, rest);
    assert w[0..] == w && w[..0] == [];
  }

  /** Decoding an encoded text followed by more bits gives the text, then
      the decoding of the extra bits. */
  lemma {:induction false} DecodeEncodedThen(m: CodeMap, dm: DecoderMap, text: seq<byte>, rest: seq<bool>)
    requires ReadsWords(m, dm) && NonEmptyWords(m) && Covers(m, text)
    ensures Walk(Encode(m, text).value + rest, [], dm) == text + Walk(rest, [], dm)
  {
    if |text| > 0 {
      assert Covers(m, text[1..]);
      var tail := Encode(m, text[1..]).value;
      assert Encode(m, text).value + rest == m[text[0]] + (tail + rest);
      calc {
        Walk(Encode(m, text).value + rest, [], dm);
        Walk(m[text[0]] + (tail + rest), [], dm);
        { DecodeWord(m, dm, text[0], tail + rest); }
        [text[0]] + Walk(tail + rest, [], dm);
        { DecodeEncodedThen(m, dm, text[1..], rest); }
        [text[0]] + (text[1..] + Walk(rest, [], dm));
        { assert [text[0]] + text[1..] == text; }
        text + Walk(rest, [], dm);
      }
    } else {
      assert Encode(m, text).value + rest == rest;
    }
  }

  /** For a prefix code with non-empty code words and a decoder map that
      inverts it, decoding an encoded text followed by any further bits
      gives the text, then the decoding of those bits; with no further
      bits, decoding undoes encoding. */
  lemma DecodeEncode(m: CodeMap, dm: DecoderMap, text: seq<byte>, more: seq<bool>)
    requires PrefixCode(m) && InverseOf(dm, m) && Covers(m, text)
    ensures Walk(Encode(m, text).value + more, [], dm) == text + Walk(more, [], dm)
  {
    InverseReadsWords(m, dm);
    DecodeEncodedThen(m, dm, text, more);
  }

  /** The round trip with the decoder map that `decode` builds from an
      injective code map. */
  lemma DecodeInverseEncode(m: CodeMap, text: seq<byte>)
    requires PrefixCode(m) && Covers(m, text)
    ensures Injective(m)
    ensures Walk(Encode(m, text).value, [], Inverse(m)) == text
  {
    PrefixFreeInjective(m);
    InverseInverts(m);
    DecodeEncode(m, Inverse(m), text, []);
    assert Encode(m, text).value + [] == Encode(m, text).value;
  }

  /** Bits that start a code word but stop short of its end are dropped:
      the decoded text is that of the complete code words. */
  lemma DecodeDropsTrailingBits(m: CodeMap, dm: DecoderMap, text: seq<byte>, c: byte, junk: seq<bool>)
    requires PrefixCode(m) && InverseOf(dm, m) && Covers(m, text)
    requires c in m && |junk| < |m[c]| && IsPrefix(junk, m[c])
    ensures Walk(Encode(m, text).value + junk, [], dm) == text
  {
    InverseReadsWords(m, dm);
    DecodeEncodedThen(m, dm, text, junk);
    forall j | 1 <= j <= |junk| ensures [] + junk[..j] !in dm {
      assert [] + junk[..j] == m[c][..j];
    }
    WalkUnmatched(dm, junk, []);
  }

  /** A walk over bits none of whose non-empty prefixes (after `acc`) is a
      key emits nothing. */
  lemma {:induction false} WalkUnmatched(dm: DecoderMap, bits: seq<bool>, acc: seq<bool>)
    requires forall j :: 1 <= j <= |bits| ==> acc + bits[..j] !in dm
    ensures Walk(bits, acc, dm) == []
    decreases |bits|
  {
    if |bits| > 0 {
      assert acc + bits[..1] == acc + [bits[0]];
      forall j | 1 <= j <= |bits[1..]| ensures (acc + [bits[0]]) + bits[1..][..j] !in dm {
        assert (acc + [bits[0]]) + bits[1..][..j] == acc + bits[..j + 1];
      }
      WalkUnmatched(dm, bits[1..], acc + [bits[0]]);
    }
  }

  /** The lookup `decoderMap.get(bitAccumulator)` as written. The class
      `BitString` defines neither `equals` nor `hashCode`, so a `HashMap`
      keyed by bit strings compares references. The keys are the code-word
      objects of the encoder map (`byReference` maps their references to
      byte values); the accumulator is the object `accumulatorRef` that
      `decode` allocates itself. */
  function WalkByReference(bits: seq<bool>, acc: seq<bool>, accumulatorRef: nat, byReference: map<nat, byte>)
    : (r: seq<byte>)
    decreases |bits|
  {
    if |bits| == 0 then []
    else
      var accumulated := acc + [bits[0]];
      if accumulatorRef in byReference
      then [byReference[accumulatorRef]] + WalkByReference(bits[1..], [], accumulatorRef, byReference)
      else WalkByReference(bits[1..], accumulated, accumulatorRef, byReference)
  }

  /** A freshly allocated accumulator is never a key, so the decoder as
      written emits nothing for any input. */
  lemma {:induction false} ReferenceWalkEmitsNothing(bits: seq<bool>, acc: seq<bool>, accumulatorRef: nat,
                                                     byReference: map<nat, byte>)
    requires accumulatorRef !in byReference
    ensures WalkByReference(bits, acc, accumulatorRef, byReference) == []
    decreases |bits|
  {
    if |bits| > 0 {
      ReferenceWalkEmitsNothing(bits[1..], acc + [bits[0]], accumulatorRef, byReference);
    }
  }

  /** The text `[65]` under the code `{65: 0}`: the decoder as written
      returns nothing, while the walk with value equality returns the
      text. */
  lemma ReferenceLookupLosesText()
    ensures var m := map[65 := [false]];
            && Encode(m, [65]) == Ok([false])
            && WalkByReference([false], [], 1, map[0 := 65]) == []
            && Walk([false], [], Inverse(m)) == [65]
  {
    var m: CodeMap := map[65 := [false]];
    EncodeOne(m, 65);
    ReferenceWalkEmitsNothing([false], [], 1, map[0 := 65]);
    assert PrefixCode(m);
    DecodeInverseEncode(m, [65]);
  }
}
