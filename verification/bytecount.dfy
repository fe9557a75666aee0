/** Occurrence counts of the byte values of a text
    (`ByteCountComputer.java`). */
module ByteCounts {
  import opened Bytes

  /** Sum of all counts of a count map. */
  function Total(counts: map<byte, nat>): int
  {
    MapSum(counts, (n: nat) => n as int)
  }

  /** `computeCharacterWeights(text)`: one pass over the text; a byte seen
      for the first time is put with count 1, a byte seen before has its
      count raised by one. */
  method ComputeCharacterWeights(text: seq<byte>) returns (counts: map<byte, nat>)
    ensures forall b :: b in counts <==> b in text
    ensures forall b :: b in counts ==> counts[b] == multiset(text)[b]
    ensures forall b :: b in counts ==> counts[b] >= 1
    ensures Total(counts) == |text|
    ensures text == [] ==> counts == map[]
  {
    counts := map[];
    MapSumEmpty((n: nat) => n as int);
    var textLength := |text|;
    var i := 0;
    while i != textLength
      invariant 0 <= i <= textLength
      invariant forall b :: b in counts <==> b in text[..i]
      invariant forall b :: b in counts ==> counts[b] == multiset(text[..i])[b]
      invariant Total(counts) == i
    {
      var currentByte := text[i];
      if currentByte in counts {
        CountStep(text, i, counts, counts[currentByte := counts[currentByte] + 1]);
        counts := counts[currentByte := counts[currentByte] + 1];
      } else {
        CountStep(text, i, counts, counts[currentByte := 1]);
        counts := counts[currentByte := 1];
      }
      i := i + 1;
    }
    assert text[..textLength] == text;
  }

  /** Counting one more byte keeps the counts those of the prefix read. */
  lemma CountStep(text: seq<byte>, i: nat, counts: map<byte, nat>, counts': map<byte, nat>)
    requires i < |text|
    requires forall b :: b in counts <==> b in text[..i]
    requires forall b :: b in counts ==> counts[b] == multiset(text[..i])[b]
    requires Total(counts) == i
    requires counts' == counts[text[i] := if text[i] in counts then counts[text[i]] + 1 else 1]
    ensures forall b :: b in counts' <==> b in text[..i + 1]
    ensures forall b :: b in counts' ==> counts'[b] == multiset(text[..i + 1])[b]
    ensures Total(counts') == i + 1
  {
    assert text[..i + 1] == text[..i] + [text[i]];
    MapSumUpdate(counts, text[i], counts'[text[i]], (n: nat) => n as int);
  }
}
