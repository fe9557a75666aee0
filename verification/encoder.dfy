/** The encoder (`HuffmanEncoder.java`): the text's code words, one after
    the other. */
module HuffmanEncoder {
  import opened Wrappers
  import opened Bytes
  import opened Codes
  import BitStrings

  /** Every byte of `text` has a code word. */
  predicate Covers(m: CodeMap, text: seq<byte>)
  {
    forall i :: 0 <= i < |text| ==> text[i] in m
  }

  /** Sum of the lengths of the code words of the bytes of `text`. */
  function CodeLength(m: CodeMap, text: seq<byte>): nat
    requires Covers(m, text)
  {
    if |text| == 0 then 0 else |m[text[0]]| + CodeLength(m, text[1..])
  }

  /** `encode(map, text)`: for each byte in text order, append its code
      word. A byte without a code word makes `map.get` return null, and
      `appendBitsFrom(null)` raises `NullPointerException`. */
  function Encode(m: CodeMap, text: seq<byte>): (r: Result<seq<bool>>)
    ensures r.Ok? <==> Covers(m, text)
    ensures r.Err? ==> r.error == NullPointer
    ensures r.Ok? ==> |r.value| == CodeLength(m, text)
    ensures text == [] ==> r == Ok([])
  {
    if |text| == 0 then Ok([])
    else if text[0] !in m then Err(NullPointer)
    else
      match Encode(m, text[1..])
      case Ok(rest) => Ok(m[text[0]] + rest)
      case Err(e) => Err(e)
  }

  /** A single byte encodes to its code word. */
  lemma EncodeOne(m: CodeMap, b: byte)
    requires b in m
    ensures Encode(m, [b]) == Ok(m[b])
  {
    assert [b][1..] == [];
    assert Encode(m, [b][1..]) == Ok([]);
    assert m[b] + [] == m[b];
  }

  /** Encoding distributes over concatenation of texts: the output is the
      code words of the text's bytes in text order. */
  lemma {:induction false} EncodeAppend(m: CodeMap, s: seq<byte>, t: seq<byte>)
    requires Covers(m, s) && Covers(m, t)
    ensures Covers(m, s + t)
    ensures Encode(m, s + t).value == Encode(m, s).value + Encode(m, t).value
  {
    assert Covers(m, s + t) by {
      forall i | 0 <= i < |s + t| ensures (s + t)[i] in m {
        if i < |s| { assert (s + t)[i] == s[i]; } else { assert (s + t)[i] == t[i - |s|]; }
      }
    }
    if |s| > 0 {
      assert (s + t)[1..] == s[1..] + t;
      assert (s + t)[0] == s[0];
      EncodeAppend(m, s[1..], t);
    } else {
      assert s + t == t;
    }
  }

  /** The loop of `encode` over a bit string builder: append each code
      word with `appendBitsFrom`, in text order. A missing code word is
      the `NullPointerException` of `appendBitsFrom(null)`. */
  method EncodeToBitString(m: CodeMap, text: seq<byte>) returns (r: Result<BitStrings.BitString>)
    ensures r.Ok? <==> Covers(m, text)
    ensures r.Err? ==> r.error == NullPointer
    ensures r.Ok? ==> r.value.Valid() && r.value.Bits() == Encode(m, text).value
  {
    var output := BitStrings.New();
    var textLength := |text|;
    var index := 0;
    while index != textLength
      invariant 0 <= index <= textLength
      invariant Covers(m, text[..index])
      invariant output.Valid() && output.Bits() == Encode(m, text[..index]).value
    {
      var currentByte := text[index];
      if currentByte !in m {
        return Err(NullPointer);
      }
      var codeWord := BitStrings.FromBits(m[currentByte]);
      output := BitStrings.AppendBitsFrom(output, codeWord);
      assert text[..index + 1] == text[..index] + [currentByte];
      EncodeOne(m, currentByte);
      EncodeAppend(m, text[..index], [currentByte]);
      index := index + 1;
    }
    assert text[..index] == text;
    return Ok(output);
  }
}
