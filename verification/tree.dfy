/** The Huffman tree (`HuffmanTree.java`): building it from a weight map
    by repeated merging of two lightest nodes, and reading the code map off
    its root-to-leaf paths. Weights are the integer byte counts. */
module HuffmanTrees {
  import opened Wrappers
  import opened Bytes
  import opened Codes
  import BitStrings

  /** A `HuffmanTreeNode`: a leaf carries a byte value and its weight, an
      internal node the weight of its two children. */
  datatype Tree = Leaf(c: byte, w: int) | Internal(w: int, left: Tree, right: Tree)

  /** The byte values on the leaves, with repetition. */
  function Leaves(t: Tree): multiset<byte>
  {
    match t
    case Leaf(c, _) => multiset{c}
    case Internal(_, l, r) => Leaves(l) + Leaves(r)
  }

  ghost predicate NoDup(leaves: multiset<byte>)
  {
    forall c :: leaves[c] <= 1
  }

  /** Every leaf weight is strictly positive, every internal weight is the
      sum of its children's, and the left child is never the heavier. */
  ghost predicate Weighted(t: Tree)
  {
    match t
    case Leaf(_, w) => w > 0
    case Internal(w, l, r) => Weighted(l) && Weighted(r) && w == l.w + r.w && l.w <= r.w
  }

  /** Every leaf carries the weight the weight map gives its byte. */
  ghost predicate LeafWeightsFrom(t: Tree, weights: map<byte, int>)
  {
    match t
    case Leaf(c, w) => c in weights && weights[c] == w
    case Internal(_, l, r) => LeafWeightsFrom(l, weights) && LeafWeightsFrom(r, weights)
  }

  /** A tree for `weights`: its leaves are exactly the keys, each once. */
  ghost predicate BuiltFrom(t: Tree, weights: map<byte, int>)
  {
    Weighted(t) && LeafWeightsFrom(t, weights) && Leaves(t) == multiset(weights.Keys)
  }

  /** A leaf, with the check of `checkWeight`: a weight that is not
      strictly positive raises `IllegalArgumentException`. */
  function MakeLeaf(c: byte, w: int): (r: Result<Tree>)
    ensures r.Ok? <==> w > 0
    ensures r.Err? ==> r.error == IllegalArgument
    ensures r.Ok? ==> r.value == Leaf(c, w)
  {
    if w <= 0 then Err(IllegalArgument) else Ok(Leaf(c, w))
  }

  /** `merge(node1, node2)`: a new internal node of the summed weight
      (checked like any node), the strictly lighter input on the left and,
      on a tie, `node2` on the left. */
  function Merge(node1: Tree, node2: Tree): (r: Result<Tree>)
    ensures r.Ok? <==> node1.w + node2.w > 0
    ensures r.Err? ==> r.error == IllegalArgument
    ensures r.Ok? ==> r.value.Internal? && r.value.w == node1.w + node2.w
    ensures r.Ok? ==> multiset{r.value.left, r.value.right} == multiset{node1, node2}
    ensures r.Ok? ==> r.value.left.w <= r.value.right.w
    ensures r.Ok? && node1.w == node2.w ==> r.value.left == node2
    ensures r.Ok? ==> Leaves(r.value) == Leaves(node1) + Leaves(node2)
  {
    if node1.w + node2.w <= 0 then Err(IllegalArgument)
    else if node1.w < node2.w then Ok(Internal(node1.w + node2.w, node1, node2))
    else Ok(Internal(node1.w + node2.w, node2, node1))
  }

  /** The leaves of all trees of a queue. */
  function QueueLeaves(q: seq<Tree>): multiset<byte>
  {
    if |q| == 0 then multiset{} else Leaves(q[0]) + QueueLeaves(q[1..])
  }

  function Remove(q: seq<Tree>, i: nat): (r: seq<Tree>)
    requires i < |q|
    ensures |r| == |q| - 1
  {
    q[..i] + q[i + 1..]
  }

  /** `q[i]` is a node a priority queue ordered by weight may remove next. */
  predicate IsMinAt(q: seq<Tree>, i: nat)
  {
    i < |q| && forall k :: 0 <= k < |q| ==> q[i].w <= q[k].w
  }

  /** The first lightest node: a witness that some node can be removed. */
  function FirstMin(q: seq<Tree>): (i: nat)
    requires |q| > 0
    ensures IsMinAt(q, i)
  {
    if |q| == 1 then 0
    else
      var j := FirstMin(q[1..]);
      if q[0].w <= q[1..][j].w then 0 else j + 1
  }

  lemma {:induction false} QueueLeavesAppend(q: seq<Tree>, t: Tree)
    ensures QueueLeaves(q + [t]) == QueueLeaves(q) + Leaves(t)
  {
    if |q| > 0 {
      assert (q + [t])[1..] == q[1..] + [t];
      QueueLeavesAppend(q[1..], t);
    }
  }

  lemma {:induction false} QueueLeavesRemove(q: seq<Tree>, i: nat)
    requires i < |q|
    ensures QueueLeaves(q) == Leaves(q[i]) + QueueLeaves(Remove(q, i))
  {
    if i > 0 {
      assert Remove(q, i)[1..] == Remove(q[1..], i - 1);
      QueueLeavesRemove(q[1..], i - 1);
    } else {
      assert Remove(q, 0) == q[1..];
    }
  }

  /** Every node of the queue is a weighted tree over the weight map. */
  ghost predicate GoodQueue(q: seq<Tree>, weights: map<byte, int>)
  {
    forall k :: 0 <= k < |q| ==> Weighted(q[k]) && LeafWeightsFrom(q[k], weights)
  }

  lemma GoodAppend(q: seq<Tree>, t: Tree, weights: map<byte, int>)
    requires GoodQueue(q, weights) && Weighted(t) && LeafWeightsFrom(t, weights)
    ensures GoodQueue(q + [t], weights)
  {
    forall k | 0 <= k < |q| + 1
      ensures Weighted((q + [t])[k]) && LeafWeightsFrom((q + [t])[k], weights)
    {
      if k < |q| {
        assert (q + [t])[k] == q[k];
      }
    }
  }

  /** Queueing the leaf of a fresh key keeps a queue of weighted leaves
      holding each key taken so far once. */
  lemma AppendLeaf(queue: seq<Tree>, c: byte, weights: map<byte, int>, done: set<byte>)
    requires c in weights && weights[c] > 0 && c !in done
    requires QueueLeaves(queue) == multiset(done) && GoodQueue(queue, weights)
    requires forall k :: 0 <= k < |queue| ==> queue[k].Leaf?
    ensures QueueLeaves(queue + [Leaf(c, weights[c])]) == multiset(done + {c})
    ensures GoodQueue(queue + [Leaf(c, weights[c])], weights)
    ensures forall k :: 0 <= k < |queue| + 1 ==> (queue + [Leaf(c, weights[c])])[k].Leaf?
  {
    var leaf := Leaf(c, weights[c]);
    QueueLeavesAppend(queue, leaf);
    GoodAppend(queue, leaf, weights);
    assert Leaves(leaf) == multiset{c};
    assert multiset(done + {c}) == multiset(done) + multiset{c};
    forall k | 0 <= k < |queue| + 1 ensures (queue + [leaf])[k].Leaf? {
      if k < |queue| {
        assert (queue + [leaf])[k] == queue[k];
      }
    }
  }

  /** The constructor `HuffmanTree(weightMap)`. An empty map raises
      `IllegalArgumentException`; so does a weight that is not strictly
      positive. The root is what remains of the queue of leaves after
      merging. */
  method Build(weights: map<byte, int>) returns (r: Result<Tree>)
    ensures r.Ok? <==> |weights| > 0 && forall c :: c in weights ==> weights[c] > 0
    ensures r.Err? ==> r.error == IllegalArgument
    ensures r.Ok? ==> BuiltFrom(r.value, weights)
  {
    if |weights| == 0 {
      return Err(IllegalArgument);
    }
    var queue :- InitialQueue(weights);
    assert |queue| > 0 by {
      var c :| c in weights;
      assert c in QueueLeaves(queue);
    }
    var root := MergeAll(queue, weights);
    return Ok(root);
  }

  /** The constructor's first loop: one leaf per entry of the weight map,
      taken in an unspecified order, each checked by `checkWeight`. */
  method InitialQueue(weights: map<byte, int>) returns (r: Result<seq<Tree>>)
    ensures r.Ok? <==> forall c :: c in weights ==> weights[c] > 0
    ensures r.Err? ==> r.error == IllegalArgument
    ensures r.Ok? ==> QueueLeaves(r.value) == multiset(weights.Keys) && GoodQueue(r.value, weights)
    ensures r.Ok? ==> forall k :: 0 <= k < |r.value| ==> r.value[k].Leaf?
  {
    var queue: seq<Tree> := [];
    var rest := weights.Keys;
    while rest != {}
      invariant rest <= weights.Keys
      invariant forall c :: c in weights.Keys - rest ==> weights[c] > 0
      invariant QueueLeaves(queue) == multiset(weights.Keys - rest)
      invariant GoodQueue(queue, weights)
      invariant forall k :: 0 <= k < |queue| ==> queue[k].Leaf?
      decreases rest
    {
      var c :| c in rest;
      var leaf := MakeLeaf(c, weights[c]);
      if leaf.Err? {
        return Err(IllegalArgument);
      }
      AppendLeaf(queue, c, weights, weights.Keys - rest);
      assert weights.Keys - (rest - {c}) == (weights.Keys - rest) + {c};
      queue := queue + [leaf.value];
      rest := rest - {c};
    }
    assert weights.Keys - rest == weights.Keys;
    return Ok(queue);
  }

  /** The constructor's second loop: while more than one node is left,
      remove two lightest nodes (which of several equally light nodes is
      unspecified, since nodes compare by weight only) and insert their
      merge; the last node is the root. */
  method MergeAll(q: seq<Tree>, ghost weights: map<byte, int>) returns (root: Tree)
    requires |q| >= 1 && GoodQueue(q, weights)
    ensures Weighted(root) && LeafWeightsFrom(root, weights)
    ensures Leaves(root) == QueueLeaves(q)
  {
    var queue := q;
    while |queue| > 1
      invariant |queue| >= 1
      invariant QueueLeaves(queue) == QueueLeaves(q)
      invariant GoodQueue(queue, weights)
      decreases |queue|
    {
      ghost var witness1 := FirstMin(queue);
      var i :| 0 <= i < |queue| && IsMinAt(queue, i);
      ghost var witness2 := FirstMin(Remove(queue, i));
      var j :| 0 <= j < |queue| - 1 && IsMinAt(Remove(queue, i), j);
      queue := MergeStep(queue, i, j, weights);
    }
    root := queue[0];
    assert queue == [root];
    assert QueueLeaves(queue) == Leaves(root) + QueueLeaves([]);
  }

  /** One iteration of the constructor's loop: remove a lightest node
      `node1`, then a lightest remaining node `node2`, and insert their
      merge. The queue shrinks by one and keeps its leaves. */
  function MergeStep(q: seq<Tree>, i: nat, j: nat, ghost weights: map<byte, int>): (r: seq<Tree>)
    requires IsMinAt(q, i) && IsMinAt(Remove(q, i), j)
    requires GoodQueue(q, weights)
    ensures |r| == |q| - 1
    ensures GoodQueue(r, weights)
    ensures QueueLeaves(r) == QueueLeaves(q)
    ensures r[|r| - 1].Internal? && r[|r| - 1].w == q[i].w + Remove(q, i)[j].w
    ensures multiset{r[|r| - 1].left, r[|r| - 1].right} == multiset{q[i], Remove(q, i)[j]}
    ensures multiset(r[..|r| - 1]) + multiset{q[i], Remove(q, i)[j]} == multiset(q)
  {
    MergeStepFacts(q, i, j, weights);
    var kept := Remove(Remove(q, i), j);
    var r := kept + [Merge(q[i], Remove(q, i)[j]).value];
    assert r[..|r| - 1] == kept;
    r
  }

  /** What one merge step keeps, for its result written out. */
  lemma MergeStepFacts(q: seq<Tree>, i: nat, j: nat, weights: map<byte, int>)
    requires IsMinAt(q, i) && IsMinAt(Remove(q, i), j)
    requires GoodQueue(q, weights)
    ensures Merge(q[i], Remove(q, i)[j]).Ok?
    ensures GoodQueue(Remove(Remove(q, i), j) + [Merge(q[i], Remove(q, i)[j]).value], weights)
    ensures QueueLeaves(Remove(Remove(q, i), j) + [Merge(q[i], Remove(q, i)[j]).value]) == QueueLeaves(q)
    ensures multiset(Remove(Remove(q, i), j)) + multiset{q[i], Remove(q, i)[j]} == multiset(q)
  {
    var node1 := q[i];
    var rest1 := Remove(q, i);
    var node2 := rest1[j];
    var rest2 := Remove(rest1, j);
    GoodRemove(q, i, weights);
    GoodRemove(rest1, j, weights);
    MergeGood(node1, node2, weights);
    var merged := Merge(node1, node2).value;
    QueueLeavesRemove(q, i);
    QueueLeavesRemove(rest1, j);
    QueueLeavesAppend(rest2, merged);
    RegroupMultiset(q, i, j);
  }

  /** Removing two nodes one after the other takes exactly those two
      out of the queue's multiset. */
  lemma RegroupMultiset(q: seq<Tree>, i: nat, j: nat)
    requires i < |q| && j < |q| - 1
    ensures multiset(Remove(Remove(q, i), j)) + multiset{q[i], Remove(q, i)[j]} == multiset(q)
  {
    RemoveMultiset(q, i);
    RemoveMultiset(Remove(q, i), j);
  }

  /** Removing a node takes exactly that node out of the queue's
      multiset. */
  lemma RemoveMultiset(q: seq<Tree>, i: nat)
    requires i < |q|
    ensures multiset(Remove(q, i)) + multiset{q[i]} == multiset(q)
  {
    assert q == q[..i] + [q[i]] + q[i + 1..];
  }

  lemma GoodRemove(q: seq<Tree>, i: nat, weights: map<byte, int>)
    requires i < |q| && GoodQueue(q, weights)
    ensures GoodQueue(Remove(q, i), weights)
    ensures Weighted(q[i]) && LeafWeightsFrom(q[i], weights)
  {
    var r := Remove(q, i);
    forall k | 0 <= k < |r|
      ensures Weighted(r[k]) && LeafWeightsFrom(r[k], weights)
    {
      assert r[k] == q[if k < i then k else k + 1];
    }
  }

  /** Merging two weighted trees over the weight map never fails and
      gives another. */
  lemma MergeGood(node1: Tree, node2: Tree, weights: map<byte, int>)
    requires Weighted(node1) && LeafWeightsFrom(node1, weights)
    requires Weighted(node2) && LeafWeightsFrom(node2, weights)
    ensures Merge(node1, node2).Ok?
    ensures Weighted(Merge(node1, node2).value) && LeafWeightsFrom(Merge(node1, node2).value, weights)
  {
    PositiveWeight(node1);
    PositiveWeight(node2);
  }

  lemma PositiveWeight(t: Tree)
    requires Weighted(t)
    ensures t.w > 0
  {
  }

  /** The code word of every leaf: the path from the root, 0 for a left
      edge and 1 for a right edge, after `path`. For a byte on several
      leaves the rightmost path wins, as a later `put` would. */
  function PathMap(t: Tree, path: seq<bool>): CodeMap
  {
    match t
    case Leaf(c, _) => map[c := path]
    case Internal(_, l, r) => PathMap(l, path + [false]) + PathMap(r, path + [true])
  }

  /** The keys of the path map are the byte values on the leaves; every
      path extends `path`, by at least one bit below an internal node. */
  lemma {:induction false} PathMapShape(t: Tree, path: seq<bool>)
    ensures forall c :: c in PathMap(t, path) <==> c in Leaves(t)
    ensures forall c :: c in PathMap(t, path) ==> IsPrefix(path, PathMap(t, path)[c])
    ensures t.Internal? ==> forall c :: c in PathMap(t, path) ==> |PathMap(t, path)[c]| > |path|
  {
    match t
    case Leaf(_, _) =>
    case Internal(_, l, r) =>
      var ml, mr := PathMap(l, path + [false]), PathMap(r, path + [true]);
      PathMapShape(l, path + [false]);
      PathMapShape(r, path + [true]);
      assert PathMap(t, path) == ml + mr;
      forall c | c in ml + mr
        ensures IsPrefix(path, (ml + mr)[c]) && |(ml + mr)[c]| > |path|
      {
        if c in mr {
          ExtendedPrefix(path, true, mr[c]);
        } else {
          ExtendedPrefix(path, false, ml[c]);
        }
      }
  }

  /** A word that extends `path + [b]` extends `path`, with `b` next. */
  lemma ExtendedPrefix(path: seq<bool>, b: bool, p: seq<bool>)
    requires IsPrefix(path + [b], p)
    ensures IsPrefix(path, p) && |p| > |path| && p[|path|] == b
  {
    assert p[..|path|] == (path + [b])[..|path|] == path;
    assert p[|path|] == p[..|path| + 1][|path|];
  }

  /** The paths to distinct leaves of a tree whose byte values are
      distinct are never prefixes of each other. */
  lemma {:induction false} PathMapPrefixFree(t: Tree, path: seq<bool>)
    requires NoDup(Leaves(t))
    ensures PrefixFree(PathMap(t, path))
  {
    match t
    case Leaf(_, _) =>
    case Internal(_, l, r) =>
      assert NoDup(Leaves(l)) by {
        forall c ensures Leaves(l)[c] <= 1 {
          assert Leaves(t)[c] == Leaves(l)[c] + Leaves(r)[c];
        }
      }
      assert NoDup(Leaves(r)) by {
        forall c ensures Leaves(r)[c] <= 1 {
          assert Leaves(t)[c] == Leaves(l)[c] + Leaves(r)[c];
        }
      }
      var pl, pr := path + [false], path + [true];
      var ml, mr := PathMap(l, pl), PathMap(r, pr);
      PathMapPrefixFree(l, pl);
      PathMapPrefixFree(r, pr);
      PathMapShape(l, pl);
      PathMapShape(r, pr);
      var m := PathMap(t, path);
      forall a, b | a in m && b in m && a != b
        ensures !IsPrefix(m[a], m[b])
      {
        assert Leaves(t)[a] == Leaves(l)[a] + Leaves(r)[a];
        assert Leaves(t)[b] == Leaves(l)[b] + Leaves(r)[b];
        if a in mr && b in mr {
        } else if a in ml && b in ml {
          assert a !in mr && b !in mr;
        } else if a in ml {
          assert a !in mr && b in mr;
          ExtendedPrefix(path, false, m[a]);
          ExtendedPrefix(path, true, m[b]);
          DifferAt(m[a], m[b], |path|);
        } else {
          assert a in mr && b in ml && b !in mr;
          ExtendedPrefix(path, true, m[a]);
          ExtendedPrefix(path, false, m[b]);
          DifferAt(m[a], m[b], |path|);
        }
      }
  }

  /** Two bit strings that differ at a position both have are not
      prefixes of each other. */
  lemma DifferAt(u: seq<bool>, v: seq<bool>, k: nat)
    requires k < |u| && k < |v| && u[k] != v[k]
    ensures !IsPrefix(u, v)
  {
  }

  /** Every builder of a Java code map holds a valid bit string. */
  ghost predicate AllValid(m: map<byte, BitStrings.BitString>)
  {
    forall c :: c in m ==> m[c].Valid()
  }

  /** The code words of a map of builders, as values. */
  function Words(m: map<byte, BitStrings.BitString>): CodeMap
    requires AllValid(m)
  {
    map c | c in m :: m[c].Bits()
  }

  lemma WordsPut(m: map<byte, BitStrings.BitString>, c: byte, b: BitStrings.BitString)
    requires AllValid(m) && b.Valid()
    ensures AllValid(m[c := b])
    ensures Words(m[c := b]) == Words(m)[c := b.Bits()]
  {
  }

  lemma UnionAssoc(a: CodeMap, b: CodeMap, c: CodeMap)
    ensures (a + b) + c == a + (b + c)
  {
  }

  /** `inferEncodingMapImpl(currentCodeWord, node, map)`: at a leaf, put a
      copy of the current path; at an internal node, append 0, recurse
      left, remove the 0, append 1, recurse right, remove the 1. Returns the
      shared builder and the map afterwards: the builder holds the same
      bits it held on entry, and the map gained the leaves' paths. */
  function InferImpl(current: BitStrings.BitString, node: Tree, m: map<byte, BitStrings.BitString>)
    : (r: (BitStrings.BitString, map<byte, BitStrings.BitString>))
    requires current.Valid() && AllValid(m)
    ensures r.0.Valid() && r.0.Bits() == current.Bits()
    ensures AllValid(r.1)
    ensures Words(r.1) == Words(m) + PathMap(node, current.Bits())
    decreases node
  {
    match node
    case Leaf(c, _) =>
      var m' := m[c := BitStrings.Copy(current)];
      WordsPut(m, c, BitStrings.Copy(current));
      (current, m')
    case Internal(_, l, rt) =>
      var withZero := BitStrings.AppendBit(current, false);
      var (afterLeft, m1) := InferImpl(withZero, l, m);
      var back1 := BitStrings.RemoveLastBit(afterLeft).value;
      assert back1.Bits() == current.Bits() by {
        assert afterLeft.Bits()[..|afterLeft.Bits()| - 1] == current.Bits();
      }
      var withOne := BitStrings.AppendBit(back1, true);
      var (afterRight, m2) := InferImpl(withOne, rt, m1);
      var back2 := BitStrings.RemoveLastBit(afterRight).value;
      assert back2.Bits() == current.Bits() by {
        assert afterRight.Bits()[..|afterRight.Bits()| - 1] == current.Bits();
      }
      UnionAssoc(Words(m), PathMap(l, current.Bits() + [false]), PathMap(rt, current.Bits() + [true]));
      (back2, m2)
  }

  /** `inferEncodingMap()`. A root that is a leaf (one byte value in the
      text) gets the one-bit code word 0; otherwise every byte value gets
      its root-to-leaf path. */
  function InferEncodingMap(root: Tree): (m: CodeMap)
    ensures forall c :: c in m <==> c in Leaves(root)
    ensures NonEmptyWords(m)
    ensures NoDup(Leaves(root)) ==> PrefixFree(m)
    ensures root.Leaf? ==> m == map[root.c := [false]]
    ensures root.Internal? ==> m == PathMap(root, [])
  {
    if root.Leaf? then
      var bs := BitStrings.AppendBit(BitStrings.New(), false);
      SingleLeafWord(root.c, bs);
      Words(map[root.c := bs])
    else
      var (_, built) := InferImpl(BitStrings.New(), root, map[]);
      PathMapShape(root, []);
      PathsFromRoot(root, built);
      Words(built)
  }

  lemma SingleLeafWord(c: byte, bs: BitStrings.BitString)
    requires bs == BitStrings.AppendBit(BitStrings.New(), false)
    ensures AllValid(map[c := bs])
    ensures Words(map[c := bs]) == map[c := [false]]
  {
    assert bs.Bits() == [false];
  }

  lemma PathsFromRoot(root: Tree, built: map<byte, BitStrings.BitString>)
    requires root.Internal?
    requires AllValid(built) && Words(built) == Words(map[]) + PathMap(root, BitStrings.New().Bits())
    ensures Words(built) == PathMap(root, [])
    ensures NoDup(Leaves(root)) ==> PrefixFree(Words(built))
  {
    assert Words(map[]) == map[];
    assert map[] + PathMap(root, []) == PathMap(root, []);
    if NoDup(Leaves(root)) {
      PathMapPrefixFree(root, []);
    }
  }

  /** The code map of a tree built from `weights` has a non-empty code word
      for exactly the keys of `weights`, and is prefix-free. */
  lemma BuiltTreeCode(t: Tree, weights: map<byte, int>)
    requires BuiltFrom(t, weights)
    ensures InferEncodingMap(t).Keys == weights.Keys
    ensures PrefixCode(InferEncodingMap(t))
  {
    assert NoDup(Leaves(t)) by {
      forall c ensures Leaves(t)[c] <= 1 {
        assert multiset(weights.Keys)[c] <= 1;
      }
    }
    var m := InferEncodingMap(t);
    assert forall c :: c in m <==> c in multiset(weights.Keys);
  }
}
