/** The in-memory path through the engine: count the bytes, build the
    tree, infer the code map, encode, then decode with the same map. */
module HuffmanPipeline {
  import opened Wrappers
  import opened Bytes
  import opened Codes
  import ByteCounts
  import HuffmanTrees
  import HuffmanEncoder
  import HuffmanDecoder

  /** Integer weights from occurrence counts. */
  function Weights(counts: map<byte, nat>): (weights: map<byte, int>)
    ensures weights.Keys == counts.Keys
    ensures forall c :: c in weights ==> weights[c] == counts[c]
  {
    map c | c in counts :: counts[c] as int
  }

  /** Encoding a text with the code of the Huffman tree of its own byte
      counts and decoding the result with the same code gives the text
      back, also for a text of a single distinct byte value. An empty
      text has an empty weight map, which the tree constructor rejects. */
  method CompressDecompress(text: seq<byte>) returns (r: Result<seq<byte>>)
    ensures r.Ok? <==> |text| > 0
    ensures r.Err? ==> r.error == IllegalArgument
    ensures r.Ok? ==> r.value == text
  {
    var counts := ByteCounts.ComputeCharacterWeights(text);
    var weights := Weights(counts);
    CountWeights(text, counts);
    var tree := HuffmanTrees.Build(weights);
    if tree.Err? {
      return Err(tree.error);
    }
    var root := tree.value;
    var code := HuffmanTrees.InferEncodingMap(root);
    TreeCodeCovers(root, weights, text);
    var encoded := HuffmanEncoder.EncodeToBitString(code, text);
    var decoded := HuffmanDecoder.Decode(encoded.value, code);
    HuffmanDecoder.DecodeInverseEncode(code, text);
    return Ok(decoded);
  }

  /** The counts of a text are positive weights for exactly its bytes. */
  lemma CountWeights(text: seq<byte>, counts: map<byte, nat>)
    requires forall b :: b in counts <==> b in text
    requires forall b :: b in counts ==> counts[b] >= 1
    ensures |Weights(counts)| > 0 <==> |text| > 0
    ensures forall c :: c in Weights(counts) ==> Weights(counts)[c] > 0
    ensures forall i :: 0 <= i < |text| ==> text[i] in Weights(counts)
  {
    if |text| > 0 {
      assert text[0] in Weights(counts);
    } else {
      assert Weights(counts) == map[];
    }
  }

  /** The code of a tree built from the weights of a text is a prefix
      code that covers the text. */
  lemma TreeCodeCovers(root: HuffmanTrees.Tree, weights: map<byte, int>, text: seq<byte>)
    requires HuffmanTrees.BuiltFrom(root, weights)
    requires forall i :: 0 <= i < |text| ==> text[i] in weights
    ensures PrefixCode(HuffmanTrees.InferEncodingMap(root))
    ensures HuffmanEncoder.Covers(HuffmanTrees.InferEncodingMap(root), text)
  {
    HuffmanTrees.BuiltTreeCode(root, weights);
  }
}
