/** The Merkle tree of `merkle_prover.rs` over an abstract hash, its completeness, and its
    soundness: an accepted proof of a wrong leaf yields a hash collision. */
module Merkle {
  import opened Options
  import opened Arithmetic
  import opened Gf256

  type Digest = d: Bytes | |d| == 32 witness seq(32, _ => 0)

  /** The hash function (SHA-256 in the program). */
  type Hasher = Bytes -> Digest

  datatype MerkleTree = MerkleTree(root: Digest, leaves: seq<Digest>, layers: seq<seq<Digest>>)

  function ZeroDigest(): Digest {
    seq(32, _ => 0)
  }

  function Parent(h: Hasher, layer: seq<Digest>, i: nat): Digest
    requires 2 * i < |layer|
  {
    h(layer[2 * i] + Sibling(layer, 2 * i))
  }

  function HashAll(h: Hasher, entries: seq<Bytes>): (r: seq<Digest>)
    ensures |r| == |entries| && forall i :: 0 <= i < |r| ==> r[i] == h(entries[i])
  {
    seq(|entries|, i requires 0 <= i < |entries| => h(entries[i]))
  }

  /** The node at `idx / 2`'s other child; the last node of an odd layer is its own sibling. */
  function Sibling(layer: seq<Digest>, idx: nat): Digest
    requires idx < |layer|
  {
    if idx % 2 == 0 then
      if idx + 1 < |layer| then layer[idx + 1] else layer[idx]
    else layer[idx - 1]
  }

  /** One layer up: pairs are hashed, an odd last node is paired with itself. */
  function NextLayer(h: Hasher, layer: seq<Digest>): (r: seq<Digest>)
    ensures |r| == (|layer| + 1) / 2
    ensures forall i :: 0 <= i < |r| ==> r[i] == h(layer[2 * i] + Sibling(layer, 2 * i))
  {
    seq((|layer| + 1) / 2, i requires 0 <= i < (|layer| + 1) / 2 => Parent(h, layer, i))
  }

  function Layers(h: Hasher, leaves: seq<Digest>): (r: seq<seq<Digest>>)
    ensures |r| >= 1 && r[0] == leaves
    decreases |leaves|
  {
    if |leaves| <= 1 then [leaves] else [leaves] + Layers(h, NextLayer(h, leaves))
  }

  function RootOf(h: Hasher, leaves: seq<Digest>): Digest {
    TopOf(Layers(h, leaves))
  }

  function TopOf(layers: seq<seq<Digest>>): Digest
    requires |layers| >= 1
  {
    if |layers[|layers| - 1]| == 0 then ZeroDigest() else layers[|layers| - 1][0]
  }

  function Build(h: Hasher, entries: seq<Bytes>): MerkleTree {
    MerkleTree(RootOf(h, HashAll(h, entries)), HashAll(h, entries), Layers(h, HashAll(h, entries)))
  }

  /** `above` is the layer above `below`: the hashes of its pairs, and of its last node twice if that
      is left over. */
  ghost predicate PairedUp(h: Hasher, below: seq<Digest>, above: seq<Digest>) {
    && |above| == (|below| + 1) / 2
    && (forall i :: 0 <= i < |below| / 2 ==>
      var first: Bytes := below[2 * i];
      above[i] == h(first + below[2 * i + 1]))
    && (|below| % 2 == 1 ==>
      var last: Bytes := below[|below| - 1];
      above[|below| / 2] == h(last + last))
  }

  lemma NextLayerPairs(h: Hasher, layer: seq<Digest>)
    ensures PairedUp(h, layer, NextLayer(h, layer))
  {
    if |layer| % 2 == 1 {
      assert 2 * (|layer| / 2) == |layer| - 1;
    }
  }

  /** `chunks(2)` and a hash for each. */
  method HashPairs(h: Hasher, layer: seq<Digest>) returns (next: seq<Digest>)
    ensures PairedUp(h, layer, next)
    ensures next == NextLayer(h, layer)
  {
    NextLayerPairs(h, layer);
    next := [];
    for i := 0 to (|layer| + 1) / 2
      invariant next == NextLayer(h, layer)[..i]
    {
      var first: Bytes := layer[2 * i];
      if 2 * i + 1 < |layer| {
        next := next + [h(first + layer[2 * i + 1])];
      } else {
        next := next + [h(first + first)];
      }
    }
  }

  /** The tree over the entries: their digests at the bottom, layers paired up to one node, and that
      node as the root, or 32 zero bytes if there are no entries. */
  ghost predicate IsTree(h: Hasher, entries: seq<Bytes>, tree: MerkleTree) {
    && |tree.leaves| == |entries| && (forall i :: 0 <= i < |entries| ==> tree.leaves[i] == h(entries[i]))
    && |tree.layers| >= 1 && tree.layers[0] == tree.leaves
    && (forall k :: 0 <= k < |tree.layers| - 1 ==>
      |tree.layers[k]| > 1 && PairedUp(h, tree.layers[k], tree.layers[k + 1]))
    && var top := tree.layers[|tree.layers| - 1];
       if entries == [] then tree.root == seq(32, _ => 0) else top == [tree.root]
  }

  lemma {:induction false} LayersPaired(h: Hasher, leaves: seq<Digest>, k: nat)
    requires k + 1 < |Layers(h, leaves)|
    ensures |Layers(h, leaves)[k]| > 1 && PairedUp(h, Layers(h, leaves)[k], Layers(h, leaves)[k + 1])
    decreases k
  {
    hide NextLayer, PairedUp;
    LayersStep(h, leaves);
    NextLayerPairs(h, leaves);
    if k > 0 {
      LayersPaired(h, NextLayer(h, leaves), k - 1);
    }
  }

  lemma {:induction false} TopIsOne(h: Hasher, leaves: seq<Digest>)
    ensures |Layers(h, leaves)[|Layers(h, leaves)| - 1]| == if leaves == [] then 0 else 1
    decreases |leaves|
  {
    if |leaves| > 1 { TopIsOne(h, NextLayer(h, leaves)); }
  }

  lemma BuildIsTree(h: Hasher, entries: seq<Bytes>)
    ensures IsTree(h, entries, Build(h, entries))
  {
    hide Layers, PairedUp;
    var tree := Build(h, entries);
    TopIsOne(h, tree.leaves);
    forall k | 0 <= k < |tree.layers| - 1
      ensures |tree.layers[k]| > 1 && PairedUp(h, tree.layers[k], tree.layers[k + 1]) {
      LayersPaired(h, tree.leaves, k);
    }
  }

  method NewTree(h: Hasher, entries: seq<Bytes>) returns (tree: MerkleTree)
    ensures IsTree(h, entries, tree)
    ensures tree == Build(h, entries)
  {
    BuildIsTree(h, entries);
    hide NextLayer, HashAll, Layers, IsTree, PairedUp;
    var leaves := HashAll(h, entries);
    var layers, current := [leaves], leaves;
    ghost var below: seq<seq<Digest>> := [];
    while |current| > 1
      invariant layers == below + [current]
      invariant below + Layers(h, current) == Layers(h, leaves)
      decreases |current|
    {
      var next := HashPairs(h, current);
      LayersStep(h, current);
      Regroup(below, current, Layers(h, next));
      below := layers;
      layers := layers + [next];
      current := next;
    }
    LayersStep(h, current);
    var root: Digest := if |current| == 0 then ZeroDigest() else current[0];
    return MerkleTree(root, leaves, layers);
  }

  lemma LayersStep(h: Hasher, leaves: seq<Digest>)
    ensures Layers(h, leaves) == if |leaves| <= 1 then [leaves] else [leaves] + Layers(h, NextLayer(h, leaves))
  {}

  lemma Regroup<T>(below: seq<T>, x: T, above: seq<T>)
    ensures below + ([x] + above) == (below + [x]) + above
  {}

  /** The siblings on the way up from `idx`. */
  function ProofAt(layers: seq<seq<Digest>>, idx: nat): (r: seq<Digest>)
    requires Reaches(layers, idx)
    ensures |layers| >= 1 ==> |r| == |layers| - 1
  {
    if |layers| <= 1 then [] else [Sibling(layers[0], idx)] + ProofAt(layers[1..], idx / 2)
  }

  /** The path up from `idx` stays inside every layer but the top. */
  predicate Reaches(layers: seq<seq<Digest>>, idx: nat) {
    |layers| <= 1 || (idx < |layers[0]| && Reaches(layers[1..], idx / 2))
  }

  lemma {:induction false} LayersReach(h: Hasher, leaves: seq<Digest>, idx: nat)
    requires idx < |leaves|
    ensures Reaches(Layers(h, leaves), idx)
    decreases |leaves|
  {
    if |leaves| > 1 {
      LayersReach(h, NextLayer(h, leaves), idx / 2);
      assert Layers(h, leaves)[1..] == Layers(h, NextLayer(h, leaves));
    }
  }

  /** `sibling` is the other child of the parent of node `i`: the node beside it, or the node itself
      if it is left over. */
  ghost predicate IsSibling(layer: seq<Digest>, i: int, sibling: Digest) {
    && 0 <= i < |layer|
    && (i % 2 == 1 ==> sibling == layer[i - 1])
    && (i % 2 == 0 && i + 1 < |layer| ==> sibling == layer[i + 1])
    && (i % 2 == 0 && i + 1 == |layer| ==> sibling == layer[i])
  }

  /** One sibling from every layer but the top, on the way up from `index`. */
  ghost predicate IsProof(layers: seq<seq<Digest>>, index: nat, proof: seq<Digest>) {
    && |proof| + 1 == |layers|
    && forall k :: 0 <= k < |proof| ==> IsSibling(layers[k], index / Pow2(k), proof[k])
  }

  lemma {:induction false} ProofSibling(layers: seq<seq<Digest>>, index: nat, k: nat)
    requires Reaches(layers, index) && k + 1 < |layers|
    ensures IsSibling(layers[k], index / Pow2(k), ProofAt(layers, index)[k])
    decreases k
  {
    if k > 0 {
      hide IsSibling, Sibling;
      ProofSibling(layers[1..], index / 2, k - 1);
      DropDigit(index, 2, Pow2(k - 1));
    }
  }

  lemma ProofIsProof(layers: seq<seq<Digest>>, index: nat)
    requires Reaches(layers, index) && |layers| >= 1
    ensures IsProof(layers, index, ProofAt(layers, index))
  {
    hide IsSibling, Reaches, ProofAt;
    forall k | 0 <= k < |layers| - 1 ensures IsSibling(layers[k], index / Pow2(k), ProofAt(layers, index)[k]) {
      ProofSibling(layers, index, k);
    }
  }

  /** The proof of the last leaf of an odd tree starts with that leaf. */
  lemma LastOfOddTree(h: Hasher, leaves: seq<Digest>, proof: seq<Digest>)
    requires |leaves| >= 3 && |leaves| % 2 == 1 && IsProof(Layers(h, leaves), |leaves| - 1, proof)
    ensures proof != [] && proof[0] == leaves[|leaves| - 1]
  {
    hide NextLayer, Layers, IsSibling, Pow2;
    LayersStep(h, leaves);
    LastIsOwnSibling(leaves, proof[0]);
    assert IsSibling(Layers(h, leaves)[0], (|leaves| - 1) / Pow2(0), proof[0]);
  }

  lemma LastIsOwnSibling(layer: seq<Digest>, sibling: Digest)
    requires |layer| % 2 == 1 && IsSibling(layer, (|layer| - 1) / Pow2(0), sibling)
    ensures sibling == layer[|layer| - 1]
  {
    assert Pow2(0) == 1;
  }

  method Prove(h: Hasher, tree: MerkleTree, index: nat) returns (r: Option<seq<Digest>>)
    requires tree.layers == Layers(h, tree.leaves)
    ensures r.None? <==> index >= |tree.leaves|
    ensures r.Some? ==> IsProof(tree.layers, index, r.value)
    ensures r.Some? ==> Reaches(tree.layers, index) && r.value == ProofAt(tree.layers, index)
  {
    if index >= |tree.leaves| {
      return None;
    }
    hide IsProof, Layers;
    LayersReach(h, tree.leaves, index);
    ProofIsProof(tree.layers, index);
    var proof: seq<Digest> := [];
    var idx: nat := index;
    assert tree.layers[0..] == tree.layers;
    for k := 0 to |tree.layers| - 1
      invariant Reaches(tree.layers[k..], idx)
      invariant proof + ProofAt(tree.layers[k..], idx) == ProofAt(tree.layers, index)
    {
      var layer := tree.layers[k];
      ghost var above := tree.layers[k + 1..];
      assert tree.layers[k..][0] == layer && tree.layers[k..][1..] == above;
      var sibling := SiblingOf(layer, idx);
      Regroup(proof, sibling, ProofAt(above, idx / 2));
      proof := proof + [sibling];
      idx := idx / 2;
    }
    assert ProofAt(tree.layers[|tree.layers| - 1..], idx) == [];
    return Some(proof);
  }

  method SiblingOf(layer: seq<Digest>, idx: nat) returns (sibling: Digest)
    requires idx < |layer|
    ensures sibling == Sibling(layer, idx)
  {
    if idx % 2 == 0 {
      if idx + 1 < |layer| {
        sibling := layer[idx + 1];
      } else {
        sibling := layer[idx];
      }
    } else {
      sibling := layer[idx - 1];
    }
  }

  // ---- Verification ----

  function StepUp(h: Hasher, hash: Bytes, sibling: Bytes, idx: nat): Digest {
    if idx % 2 == 0 then h(hash + sibling) else h(sibling + hash)
  }

  function Fold(h: Hasher, hash: Bytes, proof: seq<Bytes>, idx: nat): Bytes
    decreases |proof|
  {
    if proof == [] then hash else Fold(h, StepUp(h, hash, proof[0], idx), proof[1..], idx / 2)
  }

  method Verify(h: Hasher, root: Digest, leaf: Digest, proof: seq<Digest>, index: nat) returns (ok: bool)
    ensures ok <==> Fold(h, leaf, proof, index) == root
  {
    var hash: Digest, idx: nat := leaf, index;
    for k := 0 to |proof|
      invariant Fold(h, hash, proof[k..], idx) == Fold(h, leaf, proof, index)
    {
      var sibling := proof[k];
      if idx % 2 == 0 {
        hash := h(hash + sibling);
      } else {
        hash := h(sibling + hash);
      }
      assert proof[k..][1..] == proof[k + 1..];
      idx := idx / 2;
    }
    ok := hash == root;
  }

  // ---- Completeness ----

  /** One step up from a node with its own sibling is the node above it. */
  lemma StepToParent(h: Hasher, layer: seq<Digest>, idx: nat)
    requires idx < |layer|
    ensures idx / 2 < |NextLayer(h, layer)|
    ensures StepUp(h, layer[idx], Sibling(layer, idx), idx) == NextLayer(h, layer)[idx / 2]
  {
    if idx % 2 == 1 {
      assert 2 * (idx / 2) == idx - 1;
    } else {
      assert 2 * (idx / 2) == idx;
    }
  }

  /** The tree's own proof is the sibling and the proof one layer up. */
  lemma OneLayerUp(h: Hasher, leaves: seq<Digest>, idx: nat)
    requires idx < |leaves| && |leaves| > 1
    ensures Layers(h, leaves) == [leaves] + Layers(h, NextLayer(h, leaves))
    ensures RootOf(h, leaves) == RootOf(h, NextLayer(h, leaves))
    ensures Reaches(Layers(h, leaves), idx) && Reaches(Layers(h, NextLayer(h, leaves)), idx / 2)
    ensures ProofAt(Layers(h, leaves), idx)
      == [Sibling(leaves, idx)] + ProofAt(Layers(h, NextLayer(h, leaves)), idx / 2)
  {
    hide NextLayer, Sibling, Layers, Reaches, ProofAt, TopOf;
    LayersStep(h, leaves);
    LayersReach(h, NextLayer(h, leaves), idx / 2);
    OnTopOf(leaves, Layers(h, NextLayer(h, leaves)), idx);
  }

  lemma OnTopOf(bottom: seq<Digest>, above: seq<seq<Digest>>, idx: nat)
    requires |above| >= 1 && idx < |bottom| && Reaches(above, idx / 2)
    ensures TopOf([bottom] + above) == TopOf(above)
    ensures Reaches([bottom] + above, idx)
    ensures ProofAt([bottom] + above, idx) == [Sibling(bottom, idx)] + ProofAt(above, idx / 2)
  {
    hide Sibling;
    assert ([bottom] + above)[1..] == above;
  }

  lemma FoldStep(h: Hasher, hash: Bytes, sibling: Bytes, rest: seq<Bytes>, idx: nat)
    ensures Fold(h, hash, [sibling] + rest, idx) == Fold(h, StepUp(h, hash, sibling, idx), rest, idx / 2)
  {
    assert ([sibling] + rest)[1..] == rest;
  }

  /** The tree's own proof of any leaf folds to the root. */
  lemma {:induction false} ProofFoldsToRoot(h: Hasher, leaves: seq<Digest>, idx: nat)
    requires idx < |leaves|
    ensures Reaches(Layers(h, leaves), idx)
    ensures Fold(h, leaves[idx], ProofAt(Layers(h, leaves), idx), idx) == RootOf(h, leaves)
    decreases |leaves|
  {
    if |leaves| > 1 {
      hide Layers, RootOf, Reaches, ProofAt, Fold, NextLayer, Sibling, StepUp;
      var next := NextLayer(h, leaves);
      OneLayerUp(h, leaves, idx);
      StepToParent(h, leaves, idx);
      ProofFoldsToRoot(h, next, idx / 2);
      FoldStep(h, leaves[idx], Sibling(leaves, idx), ProofAt(Layers(h, next), idx / 2), idx);
    }
  }

  /** The number of layers above the leaves is the logarithm of their number, rounded up. */
  lemma {:induction false} HeightIsCeilLog(h: Hasher, leaves: seq<Digest>)
    requires |leaves| >= 1
    ensures var height := |Layers(h, leaves)| - 1;
      |leaves| <= Pow2(height) && (height > 0 ==> Pow2(height - 1) < |leaves|)
    decreases |leaves|
  {
    if |leaves| > 1 {
      HeightIsCeilLog(h, NextLayer(h, leaves));
    }
  }

  /** Every leaf of every non-empty tree has a proof of logarithmic length that verifies. */
  lemma Completeness(h: Hasher, entries: seq<Bytes>, idx: nat)
    requires idx < |entries|
    ensures var tree := Build(h, entries);
      && tree.leaves[idx] == h(entries[idx])
      && Reaches(tree.layers, idx)
      && Fold(h, tree.leaves[idx], ProofAt(tree.layers, idx), idx) == tree.root
      && |entries| <= Pow2(|ProofAt(tree.layers, idx)|)
      && (|ProofAt(tree.layers, idx)| > 0 ==> Pow2(|ProofAt(tree.layers, idx)| - 1) < |entries|)
  {
    ProofFoldsToRoot(h, HashAll(h, entries), idx);
    HeightIsCeilLog(h, HashAll(h, entries));
  }

  // ---- Soundness ----

  ghost predicate Collision(h: Hasher, a: Bytes, b: Bytes) {
    a != b && h(a) == h(b)
  }

  lemma SplitPair(a: Digest, b: Digest, c: Digest, d: Digest)
    requires a + b == c + d
    ensures a == c && b == d
  {
    assert a == (a + b)[..32] && c == (c + d)[..32];
    assert b == (a + b)[32..] && d == (c + d)[32..];
  }

  /** The bytes hashed in one step up. */
  ghost function PairOf(hash: Digest, sibling: Digest, idx: nat): Bytes {
    if idx % 2 == 0 then hash + sibling else sibling + hash
  }

  /** Soundness by extraction. When a leaf and a proof of the tree's height fold to the tree's root
      at an index of the tree, they are the tree's own leaf and proof, or two different inputs with
      the same hash are found on the way up. */
  lemma {:induction false} OwnLeaf(h: Hasher, leaves: seq<Digest>, leaf: Digest, proof: seq<Digest>, idx: nat)
    returns (a: Bytes, b: Bytes)
    requires idx < |leaves| && |proof| == |Layers(h, leaves)| - 1
    requires Fold(h, leaf, proof, idx) == RootOf(h, leaves)
    ensures Reaches(Layers(h, leaves), idx)
    ensures (leaf == leaves[idx] && proof == ProofAt(Layers(h, leaves), idx)) || Collision(h, a, b)
    decreases |leaves|
  {
    a, b := [], [];
    if |leaves| > 1 {
      hide Layers, RootOf, Reaches, ProofAt, Fold, NextLayer, Sibling, StepUp, PairOf;
      var next, own := NextLayer(h, leaves), Sibling(leaves, idx);
      var parent, rest := StepUp(h, leaf, proof[0], idx), proof[1..];
      OneLayerUp(h, leaves, idx);
      StepToParent(h, leaves, idx);
      assert proof == [proof[0]] + rest;
      FoldStep(h, leaf, proof[0], rest, idx);
      a, b := OwnLeaf(h, next, parent, rest, idx / 2);
      if !Collision(h, a, b) {
        StepHashes(h, leaf, proof[0], idx);
        StepHashes(h, leaves[idx], own, idx);
        a, b := PairOf(leaf, proof[0], idx), PairOf(leaves[idx], own, idx);
        SamePair(leaf, proof[0], leaves[idx], own, idx);
      }
    }
  }

  lemma StepHashes(h: Hasher, hash: Digest, sibling: Digest, idx: nat)
    ensures StepUp(h, hash, sibling, idx) == h(PairOf(hash, sibling, idx)) && |PairOf(hash, sibling, idx)| == 64
  {}

  lemma SamePair(hash: Digest, sibling: Digest, hash': Digest, sibling': Digest, idx: nat)
    ensures PairOf(hash, sibling, idx) == PairOf(hash', sibling', idx) ==> hash == hash' && sibling == sibling'
  {
    if PairOf(hash, sibling, idx) == PairOf(hash', sibling', idx) {
      if idx % 2 == 0 {
        SplitPair(hash, sibling, hash', sibling');
      } else {
        SplitPair(sibling, hash, sibling', hash');
      }
    }
  }

  /** `verify` checks no index bound. Even for an index beyond the leaves, where duplicated nodes
      make it accept, an accepted leaf is some leaf of the tree, or there is a collision. */
  lemma {:induction false} SomeLeaf(h: Hasher, leaves: seq<Digest>, leaf: Digest, proof: seq<Digest>, idx: nat)
    returns (j: nat, a: Bytes, b: Bytes)
    requires leaves != [] && |proof| == |Layers(h, leaves)| - 1
    requires Fold(h, leaf, proof, idx) == RootOf(h, leaves)
    ensures (j < |leaves| && leaf == leaves[j]) || Collision(h, a, b)
    decreases |leaves|
  {
    hide PairOf, Sibling;
    j, a, b := 0, [], [];
    if |leaves| > 1 {
      var next := NextLayer(h, leaves);
      var parent := StepUp(h, leaf, proof[0], idx);
      assert Layers(h, leaves)[1..] == Layers(h, next);
      StepHashes(h, leaf, proof[0], idx);
      var k;
      k, a, b := SomeLeaf(h, next, parent, proof[1..], idx / 2);
      if !Collision(h, a, b) {
        a, b := PairOf(leaf, proof[0], idx), leaves[2 * k] + Sibling(leaves, 2 * k);
        if a == b {
          j := ChildOfPair(leaves, leaf, proof[0], idx, k);
        }
      }
    }
  }

  /** The digest that shares a pair with a child of node `k` is a child of that node. */
  lemma ChildOfPair(layer: seq<Digest>, hash: Digest, sibling: Digest, idx: nat, k: nat) returns (j: nat)
    requires 2 * k < |layer| && PairOf(hash, sibling, idx) == layer[2 * k] + Sibling(layer, 2 * k)
    ensures j < |layer| && hash == layer[j]
  {
    if idx % 2 == 0 {
      SplitPair(hash, sibling, layer[2 * k], Sibling(layer, 2 * k));
      j := 2 * k;
    } else {
      SplitPair(sibling, hash, layer[2 * k], Sibling(layer, 2 * k));
      j := if 2 * k + 1 < |layer| then 2 * k + 1 else 2 * k;
    }
  }

  // ---- Proofs of another length ----

  /** `verify` does not know the tree's height. A leaf accepted with a shorter proof is the hash of
      the two digests below an inner node. */
  lemma {:induction false} ShorterProof(h: Hasher, leaves: seq<Digest>, leaf: Digest, proof: seq<Digest>, idx: nat)
    returns (pair: Bytes, a: Bytes, b: Bytes)
    requires |proof| < |Layers(h, leaves)| - 1
    requires Fold(h, leaf, proof, idx) == RootOf(h, leaves)
    ensures (|pair| == 64 && leaf == h(pair)) || Collision(h, a, b)
    decreases |leaves|
  {
    var next := NextLayer(h, leaves);
    assert Layers(h, leaves)[1..] == Layers(h, next);
    if |proof| == |Layers(h, next)| - 1 {
      var j;
      j, a, b := SomeLeaf(h, next, leaf, proof, idx);
      pair := if j < |next| then leaves[2 * j] + Sibling(leaves, 2 * j) else [];
    } else {
      pair, a, b := ShorterProof(h, next, leaf, proof, idx);
    }
  }

  /** With a longer proof, some leaf of the tree is the hash of two digests. */
  lemma {:induction false} LongerProof(h: Hasher, leaves: seq<Digest>, leaf: Digest, proof: seq<Digest>, idx: nat)
    returns (j: nat, pair: Bytes, a: Bytes, b: Bytes)
    requires leaves != [] && |proof| > |Layers(h, leaves)| - 1
    requires Fold(h, leaf, proof, idx) == RootOf(h, leaves)
    ensures (j < |leaves| && |pair| == 64 && leaves[j] == h(pair)) || Collision(h, a, b)
    decreases |proof|
  {
    var parent := StepUp(h, leaf, proof[0], idx);
    if |proof| == |Layers(h, leaves)| {
      j, a, b := SomeLeaf(h, leaves, parent, proof[1..], idx / 2);
      pair := PairOf(leaf, proof[0], idx);
    } else {
      j, pair, a, b := LongerProof(h, leaves, parent, proof[1..], idx / 2);
    }
  }

  /** What acceptance of a leaf means, for proofs of every length and every index: two inputs that
      collide, or the tree's own leaf and proof (a leaf of the tree, for an index beyond them), or the
      length is wrong and a leaf, the accepted one or one of the tree's, is the hash of 64 bytes. */
  lemma Soundness(h: Hasher, leaves: seq<Digest>, leaf: Digest, proof: seq<Digest>, idx: nat)
    returns (pair: Bytes, a: Bytes, b: Bytes)
    requires leaves != [] && Fold(h, leaf, proof, idx) == RootOf(h, leaves)
    ensures idx < |leaves| ==> Reaches(Layers(h, leaves), idx)
    ensures var height := |Layers(h, leaves)| - 1;
      || Collision(h, a, b)
      || (|proof| == height && leaf in leaves
        && (idx < |leaves| ==> leaf == leaves[idx] && proof == ProofAt(Layers(h, leaves), idx)))
      || (|proof| < height && |pair| == 64 && leaf == h(pair))
      || (|proof| > height && |pair| == 64 && h(pair) in leaves)
  {
    hide NextLayer, Layers, Fold, ProofAt, Reaches;
    pair := [];
    if idx < |leaves| { LayersReach(h, leaves, idx); }
    if |proof| < |Layers(h, leaves)| - 1 {
      pair, a, b := ShorterProof(h, leaves, leaf, proof, idx);
    } else if |proof| > |Layers(h, leaves)| - 1 {
      var j;
      j, pair, a, b := LongerProof(h, leaves, leaf, proof, idx);
    } else if idx < |leaves| {
      a, b := OwnLeaf(h, leaves, leaf, proof, idx);
    } else {
      var j;
      j, a, b := SomeLeaf(h, leaves, leaf, proof, idx);
    }
  }

  /** The same for a client that holds nothing but root, entry, proof and index: the entry is in the
      tree, and at that index if the tree has it, or there is a collision, or the proof's length is
      wrong and an entry of 64 bytes passed for two digests: the accepted one below a node of the
      tree, or one of the tree's below the accepted one. */
  lemma AcceptedEntryIsInTree(h: Hasher, entries: seq<Bytes>, entry: Bytes, proof: seq<Digest>, idx: nat)
    returns (a: Bytes, b: Bytes)
    requires entries != [] && Fold(h, h(entry), proof, idx) == Build(h, entries).root
    ensures var height := |Build(h, entries).layers| - 1;
      || Collision(h, a, b)
      || (|proof| == height && entry in entries && (idx < |entries| ==> entry == entries[idx]))
      || (|proof| < height && |entry| == 64)
      || (|proof| > height && exists i :: 0 <= i < |entries| && |entries[i]| == 64)
  {
    hide NextLayer, Layers, Fold, ProofAt, Reaches;
    var leaves := HashAll(h, entries);
    var pair;
    pair, a, b := Soundness(h, leaves, h(entry), proof, idx);
    if !Collision(h, a, b) {
      if |proof| < |Layers(h, leaves)| - 1 {
        a, b := entry, pair;
      } else {
        var digest := if |proof| > |Layers(h, leaves)| - 1 then h(pair) else h(entry);
        var j :| 0 <= j < |leaves| && leaves[j] == digest;
        if |proof| == |Layers(h, leaves)| - 1 && idx < |entries| { j := idx; }
        a, b := if |proof| > |Layers(h, leaves)| - 1 then pair else entry, entries[j];
      }
    }
  }

  /** A proof of the tree's height, and any proof at all if no entry is 64 bytes long, forges nothing: an
      accepted entry is in the tree, at that index if the tree has it, or there is a collision. */
  lemma NoForgery(h: Hasher, entries: seq<Bytes>, entry: Bytes, proof: seq<Digest>, idx: nat)
    returns (a: Bytes, b: Bytes)
    requires entries != [] && Fold(h, h(entry), proof, idx) == Build(h, entries).root
    requires || |proof| == |Build(h, entries).layers| - 1
      || (|entry| != 64 && forall i :: 0 <= i < |entries| ==> |entries[i]| != 64)
    ensures (entry in entries && (idx < |entries| ==> entry == entries[idx])) || Collision(h, a, b)
  {
    hide Fold, Build;
    a, b := AcceptedEntryIsInTree(h, entries, entry, proof, idx);
  }

  lemma {:induction false} RootOfPair(h: Hasher, leaves: seq<Digest>) returns (pair: Bytes)
    requires |leaves| >= 2
    ensures |pair| == 64 && h(pair) == RootOf(h, leaves)
    decreases |leaves|
  {
    var next := NextLayer(h, leaves);
    assert Layers(h, leaves)[1..] == Layers(h, next);
    if |leaves| == 2 {
      assert Layers(h, next) == [next];
      pair := leaves[0] + Sibling(leaves, 0);
    } else {
      pair := RootOfPair(h, next);
    }
  }

  /** Every tree of two entries or more accepts some 64 bytes as an entry, without a proof. */
  lemma ShorterProofForges(h: Hasher, entries: seq<Bytes>) returns (forged: Bytes)
    requires |entries| >= 2
    ensures |forged| == 64 && Fold(h, h(forged), [], 0) == Build(h, entries).root
    ensures (forall i :: 0 <= i < |entries| ==> |entries[i]| != 64) ==> forged !in entries
  {
    forged := RootOfPair(h, HashAll(h, entries));
  }

  /** Every entry that is the digest of another byte string, followed by any digest, gets that
      string accepted, with a proof longer by one. */
  lemma LongerProofForges(h: Hasher, entries: seq<Bytes>, idx: nat, forged: Bytes, other: Digest)
    requires idx < |entries| && entries[idx] == h(forged) + other
    ensures |entries[idx]| == 64 && Reaches(Build(h, entries).layers, idx)
    ensures var proof := [other] + ProofAt(Build(h, entries).layers, idx);
      Fold(h, h(forged), proof, 2 * idx) == Build(h, entries).root
  {
    hide Layers, ProofAt, Reaches;
    ProofFoldsToRoot(h, HashAll(h, entries), idx);
    var own := ProofAt(Build(h, entries).layers, idx);
    assert ([other] + own)[1..] == own;
  }
}
