/** Merkle roots and inclusion proofs over audit entries. */
module Merkle {
  import opened Bytes
  import opened JsText
  import opened AuditEntry
  import opened AuditChain

  datatype Position = Left | Right

  /** A sibling hash and the side on which it stands. */
  datatype ProofStep = ProofStep(hash: Bytes, position: Position)

  datatype MerkleProof = MerkleProof(root: Digest, proof: seq<ProofStep>, index: int)

  datatype RangeError = IndexOutOfRange

  // ----- The layers of the tree -----

  function Concat(a: Bytes, b: Bytes): (c: Bytes)
    ensures |c| == |a| + |b|
  {
    a + b
  }

  function ParentInput(layer: seq<Digest>, i: nat): (b: Bytes)
    requires 2 * i < |layer|
    ensures |b| == 2 * DIGEST_LENGTH
  {
    Concat(layer[2 * i], if 2 * i + 1 < |layer| then layer[2 * i + 1] else layer[2 * i])
  }

  function Parent(sha: Hasher, layer: seq<Digest>, i: nat): Digest
    requires 2 * i < |layer|
  {
    sha(ParentInput(layer, i))
  }

  /** The layer above: neighbours are hashed in pairs, and an odd last node with itself. */
  function ParentLayer(sha: Hasher, layer: seq<Digest>): (next: seq<Digest>)
    ensures |next| == (|layer| + 1) / 2
  {
    seq((|layer| + 1) / 2, i requires 0 <= i < (|layer| + 1) / 2 => Parent(sha, layer, i))
  }

  function RootOf(sha: Hasher, layer: seq<Digest>): Digest
    requires layer != []
    decreases |layer|
  {
    if |layer| == 1 then layer[0] else RootOf(sha, ParentLayer(sha, layer))
  }

  function Leaves(sha: Hasher, entries: seq<Entry>): (leaves: seq<Digest>)
    ensures |leaves| == |entries|
  {
    seq(|entries|, i requires 0 <= i < |entries| => EntryHash(sha, entries[i]))
  }

  function MerkleRoot(sha: Hasher, entries: seq<Entry>): Digest {
    if entries == [] then ZERO_DIGEST else RootOf(sha, Leaves(sha, entries))
  }

  /** The number of layers above the leaves. */
  function Depth(n: nat): nat
    requires n > 0
  {
    if n == 1 then 0 else 1 + Depth((n + 1) / 2)
  }

  function Pow2(k: nat): (p: nat)
    ensures p > 0
  {
    if k == 0 then 1 else 2 * Pow2(k - 1)
  }

  lemma {:induction false} DepthBounds(n: nat)
    requires n > 0
    ensures n <= Pow2(Depth(n)) < 2 * n
  {
    if n > 1 {
      DepthBounds((n + 1) / 2);
    }
  }

  // ----- What the root is -----

  /** A node that stands alone at the end of its layer is hashed with itself, k layers in a row. */
  function Lift(sha: Hasher, d: Digest, k: nat): Digest
    decreases k
  {
    if k == 0 then d else Lift(sha, sha(d + d), k - 1)
  }

  lemma ParentsOfSum(sha: Hasher, a: seq<Digest>, b: seq<Digest>)
    requires |a| % 2 == 0
    ensures ParentLayer(sha, a + b) == ParentLayer(sha, a) + ParentLayer(sha, b)
  {
    var sum, n := ParentLayer(sha, a + b), |a| / 2;
    assert |sum| == n + (|b| + 1) / 2;
    forall i | 0 <= i < |sum| ensures sum[i] == (ParentLayer(sha, a) + ParentLayer(sha, b))[i] {
      if i >= n {
        assert (a + b)[2 * i] == b[2 * (i - n)];
        assert 2 * i + 1 < |a + b| ==> (a + b)[2 * i + 1] == b[2 * (i - n) + 1];
        assert ParentInput(a + b, i) == ParentInput(b, i - n);
      }
    }
  }

  lemma {:induction false} RootOfSum(sha: Hasher, k: nat, a: seq<Digest>, b: seq<Digest>)
    requires |a| == Pow2(k) && 0 < |b| <= Pow2(k)
    ensures Depth(|b|) <= k
    ensures RootOf(sha, a + b) == sha(RootOf(sha, a) + Lift(sha, RootOf(sha, b), k - Depth(|b|)))
    decreases k
  {
    if k == 0 {
      var up := ParentLayer(sha, a + b);
      assert |up| == 1 && up[0] == Parent(sha, a + b, 0);
    } else {
      ParentsOfSum(sha, a, b);
      RootOfSum(sha, k - 1, ParentLayer(sha, a), ParentLayer(sha, b));
      if |b| == 1 {
        var only: Bytes := b[0];
        assert ParentLayer(sha, b) == [sha(only + only)];
      }
    }
  }

  lemma LeavesOfSum(sha: Hasher, es: seq<Entry>, fs: seq<Entry>)
    requires es != [] && fs != []
    ensures Leaves(sha, es + fs) == Leaves(sha, es) + Leaves(sha, fs)
    ensures MerkleRoot(sha, es + fs) == RootOf(sha, Leaves(sha, es) + Leaves(sha, fs))
  {
  }

  /**
   * Every larger root, by halves: the hash of the root of the first 2^k entries followed by the lifted root of
   * the others, of which there are at most as many.
   */
  lemma RootByHalves(sha: Hasher, k: nat, es: seq<Entry>, fs: seq<Entry>)
    requires |es| == Pow2(k) && 0 < |fs| <= Pow2(k)
    ensures Depth(|fs|) <= k && |fs| <= Pow2(Depth(|fs|)) < 2 * |fs|
    ensures MerkleRoot(sha, es + fs) == sha(MerkleRoot(sha, es) + Lift(sha, MerkleRoot(sha, fs), k - Depth(|fs|)))
  {
    DepthBounds(|fs|);
    LeavesOfSum(sha, es, fs);
    RootOfSum(sha, k, Leaves(sha, es), Leaves(sha, fs));
  }

  /** The smallest roots: nothing gives 32 zero bytes, and one entry its hash. */
  lemma SmallRoots(sha: Hasher, e: Entry)
    ensures |MerkleRoot(sha, [])| == 32 && forall i :: 0 <= i < 32 ==> MerkleRoot(sha, [])[i] == 0
    ensures MerkleRoot(sha, [e]) == sha(PayloadBytes(e))
  {
  }

  /** Lists of equal length 2^k: the root of the whole is the hash of the two roots in their order. */
  lemma RootOfHalves(sha: Hasher, k: nat, es: seq<Entry>, fs: seq<Entry>)
    requires |es| == |fs| == Pow2(k)
    ensures MerkleRoot(sha, es + fs) == sha(MerkleRoot(sha, es) + MerkleRoot(sha, fs))
  {
    RootByHalves(sha, k, es, fs);
    DepthOfPower(k);
  }

  lemma {:induction false} DepthOfPower(k: nat)
    ensures Depth(Pow2(k)) == k
  {
    if k > 0 {
      DepthOfPower(k - 1);
    }
  }

  // ----- The clamped binary tree -----

  /** The node that position j of the complete tree over n leaves reads: past the end, the duplicated one. */
  function ClampIndex(n: nat, j: nat): (i: nat)
    requires n > 0
    ensures i < n
  {
    if n == 1 then 0
    else
      var child := 2 * ClampIndex((n + 1) / 2, j / 2) + j % 2;
      if child < n then child else n - 1
  }

  lemma {:induction false} ClampExact(n: nat, j: nat)
    requires n > 0
    ensures ClampIndex(n, j) == j <==> j < n
  {
    if n > 1 && j < n {
      ClampExact((n + 1) / 2, j / 2);
    }
  }

  /** The leaves of the complete tree that the odd layers stand for. */
  function Padded<T>(leaves: seq<T>): (s: seq<T>)
    requires leaves != []
    ensures |s| == Pow2(Depth(|leaves|))
  {
    seq(Pow2(Depth(|leaves|)), j requires 0 <= j < Pow2(Depth(|leaves|)) => leaves[ClampIndex(|leaves|, j)])
  }

  function NodeInput(sha: Hasher, d: nat, s: seq<Digest>): (b: Bytes)
    requires d > 0 && |s| == Pow2(d)
    ensures |b| == 2 * DIGEST_LENGTH
    decreases d, 0
  {
    Concat(PerfectRoot(sha, d - 1, s[..Pow2(d - 1)]), PerfectRoot(sha, d - 1, s[Pow2(d - 1)..]))
  }

  /** The root of a complete binary tree of depth d, from the top down. */
  function PerfectRoot(sha: Hasher, d: nat, s: seq<Digest>): Digest
    requires |s| == Pow2(d)
    decreases d, 1
  {
    if d == 0 then s[0] else sha(NodeInput(sha, d, s))
  }

  function Pair(sha: Hasher, a: Digest, b: Digest): Digest {
    sha(Concat(a, b))
  }

  function PairUp(sha: Hasher, s: seq<Digest>): (t: seq<Digest>)
    requires |s| % 2 == 0
    ensures |t| == |s| / 2
  {
    seq(|s| / 2, i requires 0 <= i < |s| / 2 => Pair(sha, s[2 * i], s[2 * i + 1]))
  }

  lemma PairUpHalves(sha: Hasher, s: seq<Digest>, h: nat)
    requires |s| == 4 * h
    ensures PairUp(sha, s)[..h] == PairUp(sha, s[..2 * h]) && PairUp(sha, s)[h..] == PairUp(sha, s[2 * h..])
  {
  }

  /** Hashing the leaves in pairs removes one level of a complete tree. */
  lemma {:induction false} PairUpRoot(sha: Hasher, d: nat, s: seq<Digest>)
    requires |s| == Pow2(d + 1)
    ensures PerfectRoot(sha, d + 1, s) == PerfectRoot(sha, d, PairUp(sha, s))
  {
    if d == 0 {
      assert s[..1] == [s[0]] && s[1..] == [s[1]];
    } else {
      PairUpRoot(sha, d - 1, s[..Pow2(d)]);
      PairUpRoot(sha, d - 1, s[Pow2(d)..]);
      PairUpHalves(sha, s, Pow2(d - 1));
    }
  }

  lemma ClampChildren(n: nat, p: nat)
    requires n > 1
    ensures var c := ClampIndex((n + 1) / 2, p);
            && 2 * c < n
            && ClampIndex(n, 2 * p) == 2 * c
            && ClampIndex(n, 2 * p + 1) == (if 2 * c + 1 < n then 2 * c + 1 else 2 * c)
  {
    assert 2 * p / 2 == p && (2 * p + 1) / 2 == p;
  }

  lemma PaddedLength(layer: seq<Digest>, up: seq<Digest>)
    requires |layer| > 1 && |up| == (|layer| + 1) / 2
    ensures |Padded(layer)| == 2 * |Padded(up)|
  {
  }

  lemma PaddedPair(sha: Hasher, layer: seq<Digest>, p: nat)
    requires |layer| > 1 && 2 * p + 1 < |Padded(layer)| && p < |Padded(ParentLayer(sha, layer))|
    ensures Pair(sha, Padded(layer)[2 * p], Padded(layer)[2 * p + 1]) == Padded(ParentLayer(sha, layer))[p]
  {
    ClampChildren(|layer|, p);
    ParentIsPair(sha, layer, ClampIndex((|layer| + 1) / 2, p));
  }

  lemma ParentIsPair(sha: Hasher, layer: seq<Digest>, c: nat)
    requires 2 * c < |layer|
    ensures ParentLayer(sha, layer)[c]
         == Pair(sha, layer[2 * c], layer[if 2 * c + 1 < |layer| then 2 * c + 1 else 2 * c])
  {
  }

  lemma PairUpEquals(sha: Hasher, s: seq<Digest>, t: seq<Digest>)
    requires |s| == 2 * |t| && forall p :: 0 <= p < |t| ==> Pair(sha, s[2 * p], s[2 * p + 1]) == t[p]
    ensures PairUp(sha, s) == t
  {
  }

  lemma PaddedParents(sha: Hasher, layer: seq<Digest>)
    requires |layer| > 1
    ensures |Padded(layer)| % 2 == 0 && PairUp(sha, Padded(layer)) == Padded(ParentLayer(sha, layer))
  {
    var s, up := Padded(layer), ParentLayer(sha, layer);
    PaddedLength(layer, up);
    forall p | 0 <= p < |Padded(up)| ensures Pair(sha, s[2 * p], s[2 * p + 1]) == Padded(up)[p] {
      PaddedPair(sha, layer, p);
    }
    PairUpEquals(sha, s, Padded(up));
  }

  /** The layer-by-layer root is the root of the complete tree over the padded leaves. */
  lemma {:induction false} RootIsClampedTree(sha: Hasher, layer: seq<Digest>)
    requires layer != []
    ensures RootOf(sha, layer) == PerfectRoot(sha, Depth(|layer|), Padded(layer))
    decreases |layer|
  {
    if |layer| > 1 {
      RootIsClampedTree(sha, ParentLayer(sha, layer));
      PaddedParents(sha, layer);
      PairUpRoot(sha, Depth(|layer|) - 1, Padded(layer));
    }
  }

  // ----- Proofs -----

  function StepInput(current: Bytes, step: ProofStep): Bytes {
    if step.position == Right then Concat(current, step.hash) else Concat(step.hash, current)
  }

  /** The value that a proof computes from an entry hash. */
  function Fold(sha: Hasher, value: Bytes, proof: seq<ProofStep>): (b: Bytes)
    ensures |value| == DIGEST_LENGTH || proof != [] ==> |b| == DIGEST_LENGTH
  {
    if proof == [] then value
    else sha(StepInput(Fold(sha, value, proof[..|proof| - 1]), proof[|proof| - 1]))
  }

  /** The values that the steps run through: each is hashed with the sibling of the step, on its side. */
  ghost predicate Computes(sha: Hasher, values: seq<Bytes>, proof: seq<ProofStep>) {
    && |values| == |proof| + 1
    && forall k :: 0 <= k < |proof| ==>
         values[k + 1] == if proof[k].position == Right then sha(values[k] + proof[k].hash)
                          else sha(proof[k].hash + values[k])
  }

  lemma {:induction false} FoldComputes(sha: Hasher, value: Bytes, proof: seq<ProofStep>) returns (values: seq<Bytes>)
    ensures Computes(sha, values, proof) && values[0] == value && values[|proof|] == Fold(sha, value, proof)
  {
    if proof == [] {
      values := [value];
    } else {
      var init := FoldComputes(sha, value, proof[..|proof| - 1]);
      values := init + [Fold(sha, value, proof)];
    }
  }

  lemma {:induction false} ComputesFold(sha: Hasher, values: seq<Bytes>, proof: seq<ProofStep>)
    requires Computes(sha, values, proof)
    ensures values[|proof|] == Fold(sha, values[0], proof)
  {
    if proof != [] {
      ComputesFold(sha, values[..|proof|], proof[..|proof| - 1]);
      assert values[|proof|] == values[|proof| - 1 + 1];
    }
  }

  lemma FoldMeans(sha: Hasher, value: Bytes, proof: seq<ProofStep>, root: Bytes)
    ensures Fold(sha, value, proof) == root
            <==> exists values :: Computes(sha, values, proof) && values[0] == value && values[|proof|] == root
  {
    if Fold(sha, value, proof) == root {
      var values := FoldComputes(sha, value, proof);
    } else if values :| Computes(sha, values, proof) && values[0] == value && values[|proof|] == root {
      ComputesFold(sha, values, proof);
    }
  }

  /** The number whose binary digits are the positions, lowest digit first: Left stands for 1. */
  function PathIndex(proof: seq<ProofStep>): (j: nat)
    ensures j < Pow2(|proof|)
  {
    if proof == [] then 0
    else
      var n := |proof| - 1;
      PathIndex(proof[..n]) + (if proof[n].position == Left then Pow2(n) else 0)
  }

  /** The subtree reached from the root by following the proof from its last step to its first. */
  function Descend<T>(d: nat, s: seq<T>, proof: seq<ProofStep>): (t: seq<T>)
    requires |s| == Pow2(d) && |proof| <= d
    ensures |t| == Pow2(d - |proof|)
    decreases d
  {
    if proof == [] then s
    else
      var half := Pow2(d - 1);
      Descend(d - 1, if proof[|proof| - 1].position == Right then s[..half] else s[half..], proof[..|proof| - 1])
  }

  lemma {:induction false} DescendToLeaf<T>(d: nat, s: seq<T>, proof: seq<ProofStep>)
    requires |s| == Pow2(d) && |proof| == d
    ensures Descend(d, s, proof) == [s[PathIndex(proof)]]
  {
    if d > 0 {
      var half := Pow2(d - 1);
      DescendToLeaf(d - 1, if proof[d - 1].position == Right then s[..half] else s[half..], proof[..d - 1]);
    }
  }

  /** The first level, from the root down, at which the proof hashes something else than the tree does. */
  function PathCollision(sha: Hasher, d: nat, s: seq<Digest>, value: Bytes, proof: seq<ProofStep>): Option<Collision>
    requires |s| == Pow2(d) && |proof| <= d
    decreases d
  {
    if proof == [] then None
    else
      var init, last, half := proof[..|proof| - 1], proof[|proof| - 1], Pow2(d - 1);
      var mine, theirs := StepInput(Fold(sha, value, init), last), NodeInput(sha, d, s);
      if mine != theirs then Some(Collision(mine, theirs))
      else PathCollision(sha, d - 1, if last.position == Right then s[..half] else s[half..], value, init)
  }

  lemma StepSplit(current: Bytes, step: ProofStep, left: Digest, right: Digest)
    requires StepInput(current, step) == Concat(left, right) && |current| == DIGEST_LENGTH
    ensures current == if step.position == Right then left else right
  {
    if step.position == Right {
      assert current == (current + step.hash)[..DIGEST_LENGTH];
      assert left == (left + right)[..DIGEST_LENGTH];
    } else {
      var k := |step.hash|;
      assert |step.hash + current| == |left + right|;
      assert current == (step.hash + current)[k..];
      assert right == (left + right)[DIGEST_LENGTH..];
    }
  }

  /** An accepted proof that is no longer than the tree is deep starts at the node its positions lead to. */
  lemma {:induction false} PathSound(sha: Hasher, d: nat, s: seq<Digest>, value: Bytes, proof: seq<ProofStep>)
    requires |s| == Pow2(d) && |proof| <= d && |value| == DIGEST_LENGTH
    requires Fold(sha, value, proof) == PerfectRoot(sha, d, s)
    ensures match PathCollision(sha, d, s, value, proof)
            case Some(c) => IsCollision(sha, c)
            case None => value == PerfectRoot(sha, d - |proof|, Descend(d, s, proof))
    decreases d
  {
    if proof != [] {
      var init, last, half := proof[..|proof| - 1], proof[|proof| - 1], Pow2(d - 1);
      if StepInput(Fold(sha, value, init), last) == NodeInput(sha, d, s) {
        StepSplit(Fold(sha, value, init), last, PerfectRoot(sha, d - 1, s[..half]), PerfectRoot(sha, d - 1, s[half..]));
        PathSound(sha, d - 1, if last.position == Right then s[..half] else s[half..], value, init);
      }
    }
  }

  // ----- Soundness for entries -----

  lemma {:induction false} FoldAppend(sha: Hasher, value: Bytes, p: seq<ProofStep>, q: seq<ProofStep>)
    ensures Fold(sha, value, p + q) == Fold(sha, Fold(sha, value, p), q)
  {
    if q == [] {
      assert p + q == p;
    } else {
      FoldAppend(sha, value, p, q[..|q| - 1]);
      assert (p + q)[..|p + q| - 1] == p + q[..|q| - 1];
    }
  }

  lemma PaddedLeaves(sha: Hasher, entries: seq<Entry>)
    requires entries != []
    ensures Padded(Leaves(sha, entries)) == Leaves(sha, Padded(entries))
  {
  }

  /** What the last of some steps hashes. */
  function LastInput(sha: Hasher, value: Bytes, steps: seq<ProofStep>): Bytes
    requires steps != []
  {
    StepInput(Fold(sha, value, steps[..|steps| - 1]), steps[|steps| - 1])
  }

  /** For a path reached by extra steps: where it leaves the tree, or the last extra step and the entry at its end. */
  function LongCollision(sha: Hasher, d: nat, s: seq<Entry>, value: Bytes, extra: seq<ProofStep>, path: seq<ProofStep>)
    : Collision
    requires |s| == Pow2(d) && |path| == d && extra != []
  {
    match PathCollision(sha, d, Leaves(sha, s), Fold(sha, value, extra), path)
    case Some(c) => c
    case None => Collision(LastInput(sha, value, extra), PayloadBytes(s[PathIndex(path)]))
  }

  function ShortCollision(sha: Hasher, d: nat, leaves: seq<Digest>, e: Entry, proof: seq<ProofStep>): Collision
    requires |leaves| == Pow2(d) && |proof| < d
  {
    match PathCollision(sha, d, leaves, EntryHash(sha, e), proof)
    case Some(c) => c
    case None => Collision(PayloadBytes(e), NodeInput(sha, d - |proof|, Descend(d, leaves, proof)))
  }

  function FullCollision(sha: Hasher, s: seq<Entry>, e: Entry, proof: seq<ProofStep>): Collision
    requires |s| == Pow2(|proof|)
  {
    match PathCollision(sha, |proof|, Leaves(sha, s), EntryHash(sha, e), proof)
    case Some(c) => c
    case None => Collision(PayloadBytes(e), PayloadBytes(s[PathIndex(proof)]))
  }

  /** The collision that a proof reveals when it is accepted for an entry that is not where it claims. */
  function InclusionCollision(sha: Hasher, d: nat, s: seq<Entry>, e: Entry, proof: seq<ProofStep>): Collision
    requires |s| == Pow2(d)
  {
    if |proof| > d then LongCollision(sha, d, s, EntryHash(sha, e), proof[..|proof| - d], proof[|proof| - d..])
    else if |proof| == d then FullCollision(sha, s, e, proof)
    else ShortCollision(sha, d, Leaves(sha, s), e, proof)
  }

  lemma SoundLong(sha: Hasher, d: nat, s: seq<Entry>, value: Bytes, extra: seq<ProofStep>, path: seq<ProofStep>)
    requires |s| == Pow2(d) && |path| == d && |value| == DIGEST_LENGTH && extra != []
    requires Fold(sha, Fold(sha, value, extra), path) == PerfectRoot(sha, d, Leaves(sha, s))
    ensures IsCollision(sha, LongCollision(sha, d, s, value, extra, path))
            || PayloadBytes(s[PathIndex(path)]) == LastInput(sha, value, extra)
  {
    PathSound(sha, d, Leaves(sha, s), Fold(sha, value, extra), path);
    if PathCollision(sha, d, Leaves(sha, s), Fold(sha, value, extra), path) == None {
      DescendToLeaf(d, Leaves(sha, s), path);
    }
  }

  /** Only a sibling longer than a digest can make a step hash the payload of an entry. */
  lemma PayloadNeedsLongSibling(sha: Hasher, value: Bytes, steps: seq<ProofStep>, e: Entry)
    requires |value| == DIGEST_LENGTH && steps != [] && PayloadBytes(e) == LastInput(sha, value, steps)
    ensures |steps[|steps| - 1].hash| > DIGEST_LENGTH
  {
    PayloadLongerThanNode(e);
  }

  lemma SoundFull(sha: Hasher, s: seq<Entry>, e: Entry, proof: seq<ProofStep>)
    requires |s| == Pow2(|proof|)
    requires Fold(sha, EntryHash(sha, e), proof) == PerfectRoot(sha, |proof|, Leaves(sha, s))
    ensures IsCollision(sha, FullCollision(sha, s, e, proof)) || SameSigned(e, s[PathIndex(proof)])
  {
    PathSound(sha, |proof|, Leaves(sha, s), EntryHash(sha, e), proof);
    DescendToLeaf(|proof|, Leaves(sha, s), proof);
    PayloadExact(e, s[PathIndex(proof)]);
  }

  /** An entry hash that is also the hash of an inner node is a collision. */
  lemma EntryIsNoNode(sha: Hasher, d: nat, s: seq<Digest>, e: Entry)
    requires d > 0 && |s| == Pow2(d) && EntryHash(sha, e) == PerfectRoot(sha, d, s)
    ensures IsCollision(sha, Collision(PayloadBytes(e), NodeInput(sha, d, s)))
  {
    PayloadLongerThanNode(e);
  }

  lemma SoundShort(sha: Hasher, d: nat, leaves: seq<Digest>, e: Entry, proof: seq<ProofStep>)
    requires |leaves| == Pow2(d) && |proof| < d
    requires Fold(sha, EntryHash(sha, e), proof) == PerfectRoot(sha, d, leaves)
    ensures IsCollision(sha, ShortCollision(sha, d, leaves, e, proof))
  {
    PathSound(sha, d, leaves, EntryHash(sha, e), proof);
    if PathCollision(sha, d, leaves, EntryHash(sha, e), proof) == None {
      EntryIsNoNode(sha, d - |proof|, Descend(d, leaves, proof), e);
    }
  }

  /** The last of these steps has a sibling longer than a digest, and hashes exactly the payload of f. */
  ghost predicate Spells(sha: Hasher, f: Entry, value: Bytes, steps: seq<ProofStep>) {
    && steps != []
    && |steps[|steps| - 1].hash| > DIGEST_LENGTH
    && PayloadBytes(f) == LastInput(sha, value, steps)
  }

  /** The proof is longer than the tree, and its extra steps spell out the payload of the entry where the path ends. */
  ghost predicate SpellsOutPayload(sha: Hasher, entries: seq<Entry>, e: Entry, proof: seq<ProofStep>)
    requires entries != []
  {
    var k := |proof| - Depth(|entries|);
    && k > 0
    && Spells(sha, entries[ClampIndex(|entries|, PathIndex(proof[k..]))], EntryHash(sha, e), proof[..k])
  }

  lemma SoundLongSpells(sha: Hasher, s: seq<Entry>, value: Bytes, extra: seq<ProofStep>, path: seq<ProofStep>)
    requires |s| == Pow2(|path|) && |value| == DIGEST_LENGTH && extra != []
    requires Fold(sha, value, extra + path) == PerfectRoot(sha, |path|, Leaves(sha, s))
    ensures IsCollision(sha, LongCollision(sha, |path|, s, value, extra, path))
            || Spells(sha, s[PathIndex(path)], value, extra)
  {
    FoldAppend(sha, value, extra, path);
    SoundLong(sha, |path|, s, value, extra, path);
    if PayloadBytes(s[PathIndex(path)]) == LastInput(sha, value, extra) {
      PayloadNeedsLongSibling(sha, value, extra, s[PathIndex(path)]);
    }
  }

  lemma InclusionSoundLong(sha: Hasher, entries: seq<Entry>, e: Entry, proof: seq<ProofStep>)
    requires entries != [] && |proof| > Depth(|entries|)
    requires Fold(sha, EntryHash(sha, e), proof) == PerfectRoot(sha, Depth(|entries|), Leaves(sha, Padded(entries)))
    ensures IsCollision(sha, InclusionCollision(sha, Depth(|entries|), Padded(entries), e, proof))
            || SpellsOutPayload(sha, entries, e, proof)
  {
    var k := |proof| - Depth(|entries|);
    assert proof == proof[..k] + proof[k..];
    SoundLongSpells(sha, Padded(entries), EntryHash(sha, e), proof[..k], proof[k..]);
  }

  /**
   * Soundness. If a proof is accepted for the hash of an entry e against the root of a non-empty list, then
   * the proof has exactly the depth of the tree and e has signed what the entry at the path's position has
   * signed, or a collision is extracted, or the proof is too long and one of its siblings is not a digest
   * but spells out most of a payload.
   */
  lemma InclusionSound(sha: Hasher, entries: seq<Entry>, e: Entry, proof: seq<ProofStep>)
    requires entries != [] && Fold(sha, EntryHash(sha, e), proof) == MerkleRoot(sha, entries)
    ensures || IsCollision(sha, InclusionCollision(sha, Depth(|entries|), Padded(entries), e, proof))
            || (&& |proof| == Depth(|entries|)
                && SameSigned(e, entries[ClampIndex(|entries|, PathIndex(proof))])
                && (PathIndex(proof) < |entries| ==> SameSigned(e, entries[PathIndex(proof)])))
            || SpellsOutPayload(sha, entries, e, proof)
  {
    var d, s := Depth(|entries|), Padded(entries);
    RootIsClampedTree(sha, Leaves(sha, entries));
    PaddedLeaves(sha, entries);
    ClampExact(|entries|, PathIndex(proof));
    if |proof| > d {
      InclusionSoundLong(sha, entries, e, proof);
    } else if |proof| == d {
      SoundFull(sha, s, e, proof);
    } else {
      SoundShort(sha, d, Leaves(sha, s), e, proof);
    }
  }

  /** Soundness for an arbitrary 32-byte value, when the proof is as long as the tree is deep. */
  lemma ValueSound(sha: Hasher, entries: seq<Entry>, value: Bytes, proof: seq<ProofStep>)
    requires entries != [] && |value| == DIGEST_LENGTH && |proof| == Depth(|entries|)
    requires Fold(sha, value, proof) == MerkleRoot(sha, entries)
    ensures match PathCollision(sha, |proof|, Leaves(sha, Padded(entries)), value, proof)
            case Some(c) => IsCollision(sha, c)
            case None => value == EntryHash(sha, entries[ClampIndex(|entries|, PathIndex(proof))])
  {
    RootIsClampedTree(sha, Leaves(sha, entries));
    PaddedLeaves(sha, entries);
    PathSound(sha, |proof|, Leaves(sha, Padded(entries)), value, proof);
    DescendToLeaf(|proof|, Leaves(sha, Padded(entries)), proof);
  }

  // ----- What a root binds -----

  /** The first place, from the roots down, at which the two trees hash different strings. */
  function TreeCollision(sha: Hasher, d: nat, s: seq<Entry>, d': nat, t: seq<Entry>): Option<Collision>
    requires |s| == Pow2(d) && |t| == Pow2(d')
  {
    var mine := if d == 0 then PayloadBytes(s[0]) else NodeInput(sha, d, Leaves(sha, s));
    var theirs := if d' == 0 then PayloadBytes(t[0]) else NodeInput(sha, d', Leaves(sha, t));
    if mine != theirs then Some(Collision(mine, theirs))
    else if d == 0 || d' == 0 then None
    else
      var h, h' := Pow2(d - 1), Pow2(d' - 1);
      var c := TreeCollision(sha, d - 1, s[..h], d' - 1, t[..h']);
      if c.Some? then c else TreeCollision(sha, d - 1, s[h..], d' - 1, t[h'..])
  }

  ghost predicate SameLeaves(d: nat, s: seq<Entry>, d': nat, t: seq<Entry>) {
    d == d' && |s| == |t| && forall j :: 0 <= j < |s| ==> SameSigned(s[j], t[j])
  }

  lemma LeavesHalves(sha: Hasher, s: seq<Entry>, h: nat)
    requires h <= |s|
    ensures Leaves(sha, s)[..h] == Leaves(sha, s[..h]) && Leaves(sha, s)[h..] == Leaves(sha, s[h..])
  {
  }

  lemma NodeInputHalves(sha: Hasher, d: nat, s: seq<Entry>, d': nat, t: seq<Entry>)
    requires d > 0 && d' > 0 && |s| == Pow2(d) && |t| == Pow2(d')
    requires NodeInput(sha, d, Leaves(sha, s)) == NodeInput(sha, d', Leaves(sha, t))
    ensures PerfectRoot(sha, d - 1, Leaves(sha, s[..Pow2(d - 1)]))
         == PerfectRoot(sha, d' - 1, Leaves(sha, t[..Pow2(d' - 1)]))
    ensures PerfectRoot(sha, d - 1, Leaves(sha, s[Pow2(d - 1)..]))
         == PerfectRoot(sha, d' - 1, Leaves(sha, t[Pow2(d' - 1)..]))
  {
    var h, h' := Pow2(d - 1), Pow2(d' - 1);
    LeavesHalves(sha, s, h);
    LeavesHalves(sha, t, h');
    SplitEqual(PerfectRoot(sha, d - 1, Leaves(sha, s[..h])), PerfectRoot(sha, d' - 1, Leaves(sha, t[..h'])),
               PerfectRoot(sha, d - 1, Leaves(sha, s[h..])), PerfectRoot(sha, d' - 1, Leaves(sha, t[h'..])));
  }

  lemma SameLeavesJoin(d: nat, s: seq<Entry>, d': nat, t: seq<Entry>, h: nat)
    requires d > 0 && d' > 0 && h <= |s| && h <= |t|
    requires SameLeaves(d - 1, s[..h], d' - 1, t[..h]) && SameLeaves(d - 1, s[h..], d' - 1, t[h..])
    ensures SameLeaves(d, s, d', t)
  {
    forall j | 0 <= j < |s| ensures SameSigned(s[j], t[j]) {
      if j < h {
        assert s[..h][j] == s[j] && t[..h][j] == t[j];
      } else {
        assert s[h..][j - h] == s[j] && t[h..][j - h] == t[j];
      }
    }
  }

  /** Either the trees have the same signed leaves, or the extracted pair is a collision. */
  ghost predicate TreesBound(sha: Hasher, d: nat, s: seq<Entry>, d': nat, t: seq<Entry>)
    requires |s| == Pow2(d) && |t| == Pow2(d')
  {
    match TreeCollision(sha, d, s, d', t)
    case Some(c) => IsCollision(sha, c)
    case None => SameLeaves(d, s, d', t)
  }

  lemma TreeBindingLeaf(sha: Hasher, d: nat, s: seq<Entry>, d': nat, t: seq<Entry>)
    requires |s| == Pow2(d) && |t| == Pow2(d') && (d == 0 || d' == 0)
    requires PerfectRoot(sha, d, Leaves(sha, s)) == PerfectRoot(sha, d', Leaves(sha, t))
    ensures TreesBound(sha, d, s, d', t)
  {
    if d != 0 {
      PayloadLongerThanNode(t[0]);
    } else if d' != 0 {
      PayloadLongerThanNode(s[0]);
    } else {
      PayloadExact(s[0], t[0]);
    }
  }

  lemma TreeBindingNode(sha: Hasher, d: nat, s: seq<Entry>, d': nat, t: seq<Entry>)
    requires d > 0 && d' > 0 && |s| == Pow2(d) && |t| == Pow2(d')
    requires NodeInput(sha, d, Leaves(sha, s)) == NodeInput(sha, d', Leaves(sha, t))
    requires TreesBound(sha, d - 1, s[..Pow2(d - 1)], d' - 1, t[..Pow2(d' - 1)])
    requires TreesBound(sha, d - 1, s[Pow2(d - 1)..], d' - 1, t[Pow2(d' - 1)..])
    ensures TreesBound(sha, d, s, d', t)
  {
    if TreeCollision(sha, d, s, d', t) == None {
      SameLeavesJoin(d, s, d', t, Pow2(d - 1));
    }
  }

  /** Equal roots of complete trees, of any depths, mean equal signed leaves or an extracted collision. */
  lemma {:induction false} TreeBinding(sha: Hasher, d: nat, s: seq<Entry>, d': nat, t: seq<Entry>)
    requires |s| == Pow2(d) && |t| == Pow2(d')
    requires PerfectRoot(sha, d, Leaves(sha, s)) == PerfectRoot(sha, d', Leaves(sha, t))
    ensures TreesBound(sha, d, s, d', t)
  {
    if d == 0 || d' == 0 {
      TreeBindingLeaf(sha, d, s, d', t);
    } else if NodeInput(sha, d, Leaves(sha, s)) == NodeInput(sha, d', Leaves(sha, t)) {
      NodeInputHalves(sha, d, s, d', t);
      TreeBinding(sha, d - 1, s[..Pow2(d - 1)], d' - 1, t[..Pow2(d' - 1)]);
      TreeBinding(sha, d - 1, s[Pow2(d - 1)..], d' - 1, t[Pow2(d' - 1)..]);
      TreeBindingNode(sha, d, s, d', t);
    }
  }

  /** The lists stand for complete trees with the same signed leaves. */
  ghost predicate SamePadded(es: seq<Entry>, fs: seq<Entry>)
    requires es != [] && fs != []
  {
    SameLeaves(Depth(|es|), Padded(es), Depth(|fs|), Padded(fs))
  }

  function RootCollision(sha: Hasher, es: seq<Entry>, fs: seq<Entry>): Option<Collision>
    requires es != [] && fs != []
  {
    TreeCollision(sha, Depth(|es|), Padded(es), Depth(|fs|), Padded(fs))
  }

  /** Equal roots bind the padded lists, and nothing more: lists with equal padding have equal roots. */
  lemma RootBinding(sha: Hasher, es: seq<Entry>, fs: seq<Entry>)
    requires es != [] && fs != []
    ensures MerkleRoot(sha, es) == MerkleRoot(sha, fs) ==>
              match RootCollision(sha, es, fs)
              case Some(c) => IsCollision(sha, c)
              case None => SamePadded(es, fs)
    ensures SamePadded(es, fs) ==> MerkleRoot(sha, es) == MerkleRoot(sha, fs)
  {
    RootIsClampedTree(sha, Leaves(sha, es));
    RootIsClampedTree(sha, Leaves(sha, fs));
    PaddedLeaves(sha, es);
    PaddedLeaves(sha, fs);
    if MerkleRoot(sha, es) == MerkleRoot(sha, fs) {
      TreeBinding(sha, Depth(|es|), Padded(es), Depth(|fs|), Padded(fs));
    }
    if SamePadded(es, fs) {
      SameSignedLeaves(sha, Padded(es), Padded(fs));
    }
  }

  lemma SameSignedLeaves(sha: Hasher, s: seq<Entry>, t: seq<Entry>)
    requires |s| == |t| && forall j :: 0 <= j < |s| ==> SameSigned(s[j], t[j])
    ensures Leaves(sha, s) == Leaves(sha, t)
  {
    forall j | 0 <= j < |s| ensures EntryHash(sha, s[j]) == EntryHash(sha, t[j]) {
      PayloadExact(s[j], t[j]);
    }
  }

  /** Two lists of the same length with the same root have signed the same things, entry by entry. */
  lemma EqualLengthBinding(sha: Hasher, es: seq<Entry>, fs: seq<Entry>)
    requires es != [] && |es| == |fs| && MerkleRoot(sha, es) == MerkleRoot(sha, fs)
    ensures match RootCollision(sha, es, fs)
            case Some(c) => IsCollision(sha, c)
            case None => AgreeOn(es, fs, |es|)
  {
    RootBinding(sha, es, fs);
    if RootCollision(sha, es, fs) == None {
      DepthBounds(|es|);
      forall i | 0 <= i < |es| ensures SameSigned(es[i], fs[i]) {
        ClampExact(|es|, i);
        assert SameSigned(Padded(es)[i], Padded(fs)[i]);
      }
    }
  }

  /** Without the length a root does not bind: repeating the last of an odd number of entries is invisible. */
  lemma RepeatedLast(sha: Hasher, es: seq<Entry>)
    requires |es| > 1 && |es| % 2 == 1
    ensures MerkleRoot(sha, es + [es[|es| - 1]]) == MerkleRoot(sha, es)
  {
    var layer, longer := Leaves(sha, es), Leaves(sha, es + [es[|es| - 1]]);
    assert longer == layer + [layer[|layer| - 1]];
    forall i | 0 <= i < (|layer| + 1) / 2 ensures ParentInput(layer, i) == ParentInput(longer, i) {
    }
    assert ParentLayer(sha, layer) == ParentLayer(sha, longer);
  }

  /** Serialising a chain and reading it back keeps its Merkle root, whatever its signatures are. */
  lemma SerialisationKeepsRoot(sha: Hasher, es: seq<Entry>)
    ensures var back := EntriesFromJson(EntriesToJson(es));
            back.Some? && MerkleRoot(sha, back.value) == MerkleRoot(sha, es)
  {
    SerialisationKeepsEntries(sha, es);
    assert Leaves(sha, EntriesFromJson(EntriesToJson(es)).value) == Leaves(sha, es);
  }

  // ----- Completeness -----

  /** The sibling of node i in a layer. */
  function SiblingStep(layer: seq<Digest>, i: nat): ProofStep
    requires i < |layer|
  {
    if i % 2 == 0 then ProofStep(if i + 1 < |layer| then layer[i + 1] else layer[i], Right)
    else ProofStep(layer[i - 1], Left)
  }

  function HonestProof(sha: Hasher, layer: seq<Digest>, i: nat): seq<ProofStep>
    requires i < |layer|
    decreases |layer|
  {
    if |layer| == 1 then []
    else [SiblingStep(layer, i)] + HonestProof(sha, ParentLayer(sha, layer), i / 2)
  }

  lemma SiblingInput(layer: seq<Digest>, i: nat)
    requires i < |layer|
    ensures StepInput(layer[i], SiblingStep(layer, i)) == ParentInput(layer, i / 2)
  {
    assert i == 2 * (i / 2) + i % 2;
  }

  lemma {:induction false} HonestAccepted(sha: Hasher, layer: seq<Digest>, i: nat)
    requires i < |layer|
    ensures Fold(sha, layer[i], HonestProof(sha, layer, i)) == RootOf(sha, layer)
    decreases |layer|
  {
    if |layer| > 1 {
      var rest := HonestProof(sha, ParentLayer(sha, layer), i / 2);
      HonestAccepted(sha, ParentLayer(sha, layer), i / 2);
      FoldAppend(sha, layer[i], [SiblingStep(layer, i)], rest);
      SiblingInput(layer, i);
      assert [SiblingStep(layer, i)][..0] == [];
    }
  }

  lemma {:induction false} PathIndexCons(step: ProofStep, rest: seq<ProofStep>)
    ensures PathIndex([step] + rest) == (if step.position == Left then 1 else 0) + 2 * PathIndex(rest)
  {
    var all := [step] + rest;
    if rest == [] {
      assert all[..0] == [];
    } else {
      PathIndexCons(step, rest[..|rest| - 1]);
      assert all[..|all| - 1] == [step] + rest[..|rest| - 1];
    }
  }

  lemma {:induction false} HonestIndex(sha: Hasher, layer: seq<Digest>, i: nat)
    requires i < |layer|
    ensures PathIndex(HonestProof(sha, layer, i)) == i
    decreases |layer|
  {
    if |layer| > 1 {
      HonestIndex(sha, ParentLayer(sha, layer), i / 2);
      PathIndexCons(SiblingStep(layer, i), HonestProof(sha, ParentLayer(sha, layer), i / 2));
    }
  }

  /** Digit k of the binary form of i, the lowest being digit 0. */
  function BinaryDigit(i: nat, k: nat): nat {
    if k == 0 then i % 2 else BinaryDigit(i / 2, k - 1)
  }

  /** The positions of an honest proof are the binary digits of the index, as many as the tree has levels. */
  lemma {:induction false} HonestDigits(sha: Hasher, layer: seq<Digest>, i: nat)
    requires i < |layer|
    ensures var proof := HonestProof(sha, layer, i);
            && |proof| == Depth(|layer|)
            && forall k :: 0 <= k < |proof| ==>
                 |proof[k].hash| == DIGEST_LENGTH && (proof[k].position == Left <==> BinaryDigit(i, k) == 1)
    decreases |layer|
  {
    if |layer| > 1 {
      HonestDigits(sha, ParentLayer(sha, layer), i / 2);
      var proof, rest := HonestProof(sha, layer, i), HonestProof(sha, ParentLayer(sha, layer), i / 2);
      assert forall k :: 0 < k < |proof| ==> proof[k] == rest[k - 1] && BinaryDigit(i, k) == BinaryDigit(i / 2, k - 1);
    }
  }

  // ----- The algorithms -----

  /** The inner loop over a layer. */
  method NextLayer(sha: Hasher, layer: seq<Digest>) returns (next: seq<Digest>)
    ensures next == ParentLayer(sha, layer)
  {
    next := [];
    var i := 0;
    while i < |layer|
      invariant 0 <= i <= |layer| + 1 && i % 2 == 0
      invariant |next| == i / 2 && forall k :: 0 <= k < i / 2 ==> next[k] == Parent(sha, layer, k)
    {
      var left := layer[i];
      var right := if i + 1 < |layer| then layer[i + 1] else layer[i];
      assert Concat(left, right) == ParentInput(layer, i / 2);
      next := next + [sha(Concat(left, right))];
      i := i + 2;
    }
  }

  method BuildMerkleRoot(sha: Hasher, entries: seq<Entry>) returns (root: Digest)
    ensures root == MerkleRoot(sha, entries)
  {
    if |entries| == 0 {
      return ZERO_DIGEST;
    }
    var layer := Leaves(sha, entries);
    while |layer| > 1
      invariant layer != [] && RootOf(sha, layer) == MerkleRoot(sha, entries)
      decreases |layer|
    {
      layer := NextLayer(sha, layer);
    }
    return layer[0];
  }

  /** The inner loop of the proof builder, which also records the sibling of the current node. */
  method NextLayerAndStep(sha: Hasher, layer: seq<Digest>, currentIndex: nat)
    returns (next: seq<Digest>, steps: seq<ProofStep>)
    requires currentIndex < |layer|
    ensures next == ParentLayer(sha, layer) && steps == [SiblingStep(layer, currentIndex)]
  {
    next, steps := [], [];
    var i := 0;
    while i < |layer|
      invariant 0 <= i <= |layer| + 1 && i % 2 == 0
      invariant |next| == i / 2 && forall k :: 0 <= k < i / 2 ==> next[k] == Parent(sha, layer, k)
      invariant steps == if i <= currentIndex then [] else [SiblingStep(layer, currentIndex)]
    {
      var left := layer[i];
      var right := if i + 1 < |layer| then layer[i + 1] else layer[i];
      if i == currentIndex || i + 1 == currentIndex {
        if currentIndex % 2 == 0 {
          var sibling := if i + 1 < |layer| then layer[i + 1] else layer[i];
          steps := steps + [ProofStep(sibling, Right)];
        } else {
          steps := steps + [ProofStep(layer[i], Left)];
        }
      }
      assert Concat(left, right) == ParentInput(layer, i / 2);
      next := next + [sha(Concat(left, right))];
      i := i + 2;
    }
  }

  method BuildMerkleProof(sha: Hasher, entries: seq<Entry>, index: int) returns (r: Result<MerkleProof, RangeError>)
    ensures r.Err? <==> index < 0 || index >= |entries|
    ensures r.Ok? ==>
              && r.value.root == MerkleRoot(sha, entries)
              && r.value.index == index
              && r.value.proof == HonestProof(sha, Leaves(sha, entries), index)
  {
    if index < 0 || index >= |entries| {
      return Err(IndexOutOfRange);
    }
    var layer := Leaves(sha, entries);
    var proof: seq<ProofStep> := [];
    var currentIndex := index;
    ghost var whole := HonestProof(sha, layer, index);
    while |layer| > 1
      invariant 0 <= currentIndex < |layer| && RootOf(sha, layer) == MerkleRoot(sha, entries)
      invariant whole == proof + HonestProof(sha, layer, currentIndex)
      decreases |layer|
    {
      var next, steps := NextLayerAndStep(sha, layer, currentIndex);
      Assoc(proof, steps, HonestProof(sha, next, currentIndex / 2));
      proof := proof + steps;
      currentIndex := currentIndex / 2;
      layer := next;
    }
    return Ok(MerkleProof(layer[0], proof, index));
  }

  /** The index argument plays no part in the answer. */
  method VerifyMerkleProof(sha: Hasher, entryHash: Bytes, proof: seq<ProofStep>, index: int, root: Bytes)
    returns (ok: bool)
    ensures ok <==> Fold(sha, entryHash, proof) == root
    ensures ok <==> exists values ::
                      Computes(sha, values, proof) && values[0] == entryHash && values[|proof|] == root
  {
    FoldMeans(sha, entryHash, proof, root);
    var current := entryHash;
    var idx := index;
    for k := 0 to |proof|
      invariant current == Fold(sha, entryHash, proof[..k])
    {
      var step := proof[k];
      assert proof[..k + 1][..k] == proof[..k];
      if step.position == Right {
        current := sha(Concat(current, step.hash));
      } else {
        current := sha(Concat(step.hash, current));
      }
      idx := idx / 2;
    }
    assert proof[..|proof|] == proof;
    return current == root;
  }

  /** Completeness: the built proof has the digits of the index for positions, the depth for length, and is accepted. */
  lemma MerkleComplete(sha: Hasher, entries: seq<Entry>, index: nat)
    requires index < |entries|
    ensures var proof := HonestProof(sha, Leaves(sha, entries), index);
            && |entries| <= Pow2(|proof|) < 2 * |entries|
            && PathIndex(proof) == index
            && (forall k :: 0 <= k < |proof| ==> (proof[k].position == Left <==> BinaryDigit(index, k) == 1))
            && Fold(sha, EntryHash(sha, entries[index]), proof) == MerkleRoot(sha, entries)
  {
    DepthBounds(|entries|);
    HonestIndex(sha, Leaves(sha, entries), index);
    HonestDigits(sha, Leaves(sha, entries), index);
    HonestAccepted(sha, Leaves(sha, entries), index);
  }

  /** If a step spells out the payload of an entry, it extends the honest proof to an accepted one that is too long. */
  lemma SpellingProofAccepted(sha: Hasher, entries: seq<Entry>, i: nat, e: Entry, step: ProofStep)
    requires i < |entries| && PayloadBytes(entries[i]) == StepInput(EntryHash(sha, e), step)
    ensures var proof := [step] + HonestProof(sha, Leaves(sha, entries), i);
            && |proof| == Depth(|entries|) + 1
            && Fold(sha, EntryHash(sha, e), proof) == MerkleRoot(sha, entries)
  {
    var rest := HonestProof(sha, Leaves(sha, entries), i);
    HonestDigits(sha, Leaves(sha, entries), i);
    HonestAccepted(sha, Leaves(sha, entries), i);
    FoldAppend(sha, EntryHash(sha, e), [step], rest);
    assert [step][..0] == [];
  }

  // ----- Shorter proofs -----

  /** The layer k steps above the given one. */
  function LayerAbove(sha: Hasher, layer: seq<Digest>, k: nat): seq<Digest>
    decreases k
  {
    if k == 0 then layer else LayerAbove(sha, ParentLayer(sha, layer), k - 1)
  }

  lemma {:induction false} LayerAboveRoot(sha: Hasher, layer: seq<Digest>, k: nat)
    requires layer != [] && k <= Depth(|layer|)
    ensures var above := LayerAbove(sha, layer, k);
            above != [] && RootOf(sha, above) == RootOf(sha, layer) && Depth(|above|) == Depth(|layer|) - k
    decreases k
  {
    if k > 0 {
      LayerAboveRoot(sha, ParentLayer(sha, layer), k - 1);
    }
  }

  /**
   * Every inner node is accepted, with a proof that is shorter than the tree by its height: a verifier must
   * hash an entry itself, or insist on the length.
   */
  lemma InnerNodeAccepted(sha: Hasher, entries: seq<Entry>, k: nat, i: nat)
    requires entries != [] && k <= Depth(|entries|) && i < |LayerAbove(sha, Leaves(sha, entries), k)|
    ensures var nodes := LayerAbove(sha, Leaves(sha, entries), k);
            var proof := HonestProof(sha, nodes, i);
            && |proof| == Depth(|entries|) - k && PathIndex(proof) == i
            && Fold(sha, nodes[i], proof) == MerkleRoot(sha, entries)
  {
    var nodes := LayerAbove(sha, Leaves(sha, entries), k);
    LayerAboveRoot(sha, Leaves(sha, entries), k);
    HonestAccepted(sha, nodes, i);
    HonestIndex(sha, nodes, i);
    HonestDigits(sha, nodes, i);
  }

  /**
   * Conversely, a 32-byte value that is accepted with a proof k steps shorter than the tree is the node of
   * layer k to which the positions lead, or a collision is extracted; k == 0 is the length test.
   */
  lemma NodeSound(sha: Hasher, entries: seq<Entry>, k: nat, value: Bytes, proof: seq<ProofStep>)
    requires entries != [] && |value| == DIGEST_LENGTH && |proof| + k == Depth(|entries|)
    requires Fold(sha, value, proof) == MerkleRoot(sha, entries)
    ensures var nodes := LayerAbove(sha, Leaves(sha, entries), k);
            && nodes != [] && Depth(|nodes|) == |proof|
            && match PathCollision(sha, |proof|, Padded(nodes), value, proof)
               case Some(c) => IsCollision(sha, c)
               case None => value == nodes[ClampIndex(|nodes|, PathIndex(proof))]
  {
    var nodes := LayerAbove(sha, Leaves(sha, entries), k);
    LayerAboveRoot(sha, Leaves(sha, entries), k);
    RootIsClampedTree(sha, nodes);
    PathSound(sha, |proof|, Padded(nodes), value, proof);
    DescendToLeaf(|proof|, Padded(nodes), proof);
  }
}
