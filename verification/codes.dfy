/** Code maps: what the tree produces and the encoder and decoder consume.
    A code map sends a byte value to its code word; code words are
    compared as values, bit by bit. */
module Codes {
  import opened Bytes

  type CodeMap = map<byte, seq<bool>>

  /** `u` is a prefix of `v` (possibly equal to it). */
  predicate IsPrefix(u: seq<bool>, v: seq<bool>)
  {
    |u| <= |v| && v[..|u|] == u
  }

  /** No code word of one byte value is a prefix of, or equal to, the code
      word of another. */
  ghost predicate PrefixFree(m: CodeMap)
  {
    forall a, b :: a in m && b in m && a != b ==> !IsPrefix(m[a], m[b])
  }

  /** Every code word has at least one bit. */
  ghost predicate NonEmptyWords(m: CodeMap)
  {
    forall a :: a in m ==> |m[a]| > 0
  }

  /** A code the decoder can always invert. */
  ghost predicate PrefixCode(m: CodeMap)
  {
    PrefixFree(m) && NonEmptyWords(m)
  }

  /** Distinct byte values have distinct code words. */
  ghost predicate Injective(m: CodeMap)
  {
    forall a, b :: a in m && b in m && a != b ==> m[a] != m[b]
  }

  /** A prefix-free map is injective. */
  lemma PrefixFreeInjective(m: CodeMap)
    requires PrefixFree(m)
    ensures Injective(m)
  {
  }
}
