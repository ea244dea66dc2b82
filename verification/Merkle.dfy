/** The binary Merkle tree of artifact-chunk-manifest.ts: levels that duplicate the
    last node at odd widths, inclusion proofs, and the verifier's walk. */
module Merkle {
  import opened Hashing

  /** `Malformed` stands for any position string other than "left" and "right". */
  datatype Position = Left | Right | Malformed
  datatype ProofNode = ProofNode(position: Position, sibling: Bytes)

  // ----- the tree -----

  /** The node paired with an even position `i`; the last node of an odd level is paired with itself. */
  function PairRight(level: seq<Digest>, i: nat): Digest
    requires i < |level|
  {
    if i + 1 < |level| then level[i + 1] else level[i]
  }

  function NextLevel(h: Hash, level: seq<Digest>): (next: seq<Digest>)
    ensures |next| == (|level| + 1) / 2
  {
    seq((|level| + 1) / 2, i requires 0 <= i < (|level| + 1) / 2 =>
      ParentDigest(h, level[2 * i], PairRight(level, 2 * i)))
  }

  function Root(h: Hash, leaves: seq<Digest>): Digest
    decreases |leaves|
  {
    if |leaves| == 0 then EmptyRoot(h)
    else if |leaves| == 1 then leaves[0]
    else Root(h, NextLevel(h, leaves))
  }

  function Levels(h: Hash, leaves: seq<Digest>): (levels: seq<seq<Digest>>)
    ensures |levels| > 0
    decreases |leaves|
  {
    if |leaves| <= 1 then [if leaves == [] then [EmptyRoot(h)] else leaves]
    else [leaves] + Levels(h, NextLevel(h, leaves))
  }

  /** Number of ceil-halvings that take a width to one. */
  function Depth(width: nat): nat {
    if width <= 1 then 0 else 1 + Depth((width + 1) / 2)
  }

  function Pow2(d: nat): (p: nat)
    ensures p > 0
  {
    if d == 0 then 1 else 2 * Pow2(d - 1)
  }

  /** The least d, from `from` on, with n <= 2^d. */
  function LeastPower(n: nat, from: nat): (d: nat)
    requires from == 0 || Pow2(from - 1) < n
    ensures n <= Pow2(d) && (d == 0 || Pow2(d - 1) < n)
    decreases n - Pow2(from)
  {
    if n <= Pow2(from) then from else LeastPower(n, from + 1)
  }

  /** ceil(log2(n)), zero for n <= 1. */
  function ExpectedProofDepthFor(n: nat): nat { LeastPower(n, 0) }

  /** The rounded-up logarithm counts ceil-halvings. */
  lemma ExpectedDepthIsHalvings(n: nat)
    ensures ExpectedProofDepthFor(n) == Depth(n)
  {
    DepthIsCeilLog2(n, LeastPower(n, 0));
  }

  /** Halving rounding up and doubling are adjoint. */
  lemma {:induction false} DepthIsCeilLog2(n: nat, d: nat)
    requires n <= Pow2(d) && (d == 0 || Pow2(d - 1) < n)
    ensures d == Depth(n)
  {
    if d > 0 {
      assert n > 1;
      DepthIsCeilLog2((n + 1) / 2, d - 1);
    }
  }

  lemma {:induction false} DepthBound(n: nat, d: nat)
    requires n <= Pow2(d)
    ensures Depth(n) <= d
  {
    if n > 1 {
      DepthBound((n + 1) / 2, d - 1);
    }
  }

  method BuildNextLevel(h: Hash, current: seq<Digest>) returns (next: seq<Digest>)
    ensures next == NextLevel(h, current)
  {
    next := [];
    var i := 0;
    while i < |current|
      invariant 0 <= i <= |current| + 1 && i % 2 == 0
      invariant |next| == i / 2
      invariant forall k | 0 <= k < |next| :: next[k] == NextLevel(h, current)[k]
    {
      var right := if i + 1 < |current| then current[i + 1] else current[i];
      next := next + [ParentDigest(h, current[i], right)];
      i := i + 2;
    }
  }

  /** Node i of a level hashes the byte 1 and nodes 2i and 2i + 1 of the level below, in this order; an odd
      last node is hashed with itself. */
  predicate HashedFrom(h: Hash, below: seq<Digest>, above: seq<Digest>) {
    && 2 * |above| - 1 <= |below| <= 2 * |above|
    && forall i :: 0 <= i < |above| ==>
         above[i] == h([1] + below[2 * i] + (if 2 * i + 1 < |below| then below[2 * i + 1] else below[2 * i]))
  }

  /** Every built level is hashed from the one below. */
  lemma LevelNodes(h: Hash, leaves: seq<Digest>, k: nat)
    requires k + 1 < |Levels(h, leaves)|
    ensures Levels(h, leaves)[0] == leaves && HashedFrom(h, Levels(h, leaves)[k], Levels(h, leaves)[k + 1])
  {
    LevelsTail(h, leaves, k);
  }

  method BuildMerkleLevels(h: Hash, leaves: seq<Digest>) returns (levels: seq<seq<Digest>>)
    ensures levels == Levels(h, leaves)
    ensures if leaves == [] then levels == [[h([2])]]
      else levels[0] == leaves && forall k :: 0 <= k < |levels| - 1 ==> HashedFrom(h, levels[k], levels[k + 1])
  {
    forall k | 0 <= k < |Levels(h, leaves)| - 1
      ensures HashedFrom(h, Levels(h, leaves)[k], Levels(h, leaves)[k + 1])
    {
      LevelNodes(h, leaves, k);
    }
    hide HashedFrom;
    if |leaves| == 0 {
      return [[EmptyRoot(h)]];
    }
    levels := [leaves];
    var current := leaves;
    while |current| > 1
      invariant |current| > 0 && |levels| > 0
      invariant levels[|levels| - 1] == current
      invariant levels[..|levels| - 1] + Levels(h, current) == Levels(h, leaves)
      decreases |current|
    {
      var next := BuildNextLevel(h, current);
      assert levels[..|levels| - 1] + [current] == levels;
      levels := levels + [next];
      assert levels[..|levels| - 1] + Levels(h, next) == Levels(h, leaves);
      current := next;
    }
    assert levels[..|levels| - 1] + [current] == levels;
  }

  /** The last level is the root alone, after as many halvings as the width needs. */
  lemma {:induction false} LevelsEndInRoot(h: Hash, leaves: seq<Digest>)
    ensures var levels := Levels(h, leaves);
            levels[|levels| - 1] == [Root(h, leaves)] && |levels| == Depth(|leaves|) + 1
    decreases |leaves|
  {
    if |leaves| > 1 {
      LevelsEndInRoot(h, NextLevel(h, leaves));
    }
  }

  /** i halved k times. */
  function Ancestor(i: nat, k: nat): nat { if k == 0 then i else Ancestor(i / 2, k - 1) }

  /** Proofs as nodes of the levels: at level k the sibling of the ancestor, to its left at an odd
      position, else to its right, which at an odd end is the ancestor itself. */
  lemma {:induction false} ProofNodeAt(h: Hash, leaves: seq<Digest>, index: nat, k: nat)
    requires index < |leaves| && k < Depth(|leaves|)
    ensures k < |Levels(h, leaves)| && k < |ProofFor(h, leaves, index)|
    ensures var level, j, node := Levels(h, leaves)[k], Ancestor(index, k), ProofFor(h, leaves, index)[k];
      && j < |level|
      && node == if j % 2 == 1 then ProofNode(Left, level[j - 1])
                 else ProofNode(Right, level[if j + 1 < |level| then j + 1 else j])
    decreases k
  {
    LevelsEndInRoot(h, leaves);
    hide Root, NextLevel;
    if k > 0 {
      ProofNodeAt(h, NextLevel(h, leaves), index / 2, k - 1);
    }
  }

  /** The root is read off the last level. */
  method MerkleRoot(h: Hash, leaves: seq<Digest>) returns (root: Digest)
    ensures root == Root(h, leaves)
  {
    var levels := BuildMerkleLevels(h, leaves);
    LevelsEndInRoot(h, leaves);
    root := levels[|levels| - 1][0];
  }

  // ----- proofs -----

  function NodeAt(level: seq<Digest>, index: nat): ProofNode
    requires index < |level|
  {
    if index % 2 == 1 then ProofNode(Left, level[index - 1])
    else ProofNode(Right, PairRight(level, index))
  }

  function ProofFor(h: Hash, level: seq<Digest>, index: nat): (nodes: seq<ProofNode>)
    requires index < |level|
    ensures |nodes| == Depth(|level|)
    decreases |level|
  {
    if |level| <= 1 then []
    else [NodeAt(level, index)] + ProofFor(h, NextLevel(h, level), index / 2)
  }

  lemma {:induction false} LevelsTail(h: Hash, leaves: seq<Digest>, k: nat)
    requires |leaves| > 0 && k + 1 < |Levels(h, leaves)|
    ensures |Levels(h, leaves)[k]| > 1
    ensures Levels(h, leaves)[k + 1] == NextLevel(h, Levels(h, leaves)[k])
    decreases |leaves|
  {
    var next := NextLevel(h, leaves);
    if k > 0 {
      LevelsTail(h, next, k - 1);
    } else {
      assert Levels(h, next)[0] == next;
    }
  }

  lemma ProofStep(h: Hash, level: seq<Digest>, index: nat, node: ProofNode, nodes: seq<ProofNode>)
    requires index < |level| && |level| > 1 && node == NodeAt(level, index)
    ensures index / 2 < |NextLevel(h, level)|
    ensures nodes + ProofFor(h, level, index) == (nodes + [node]) + ProofFor(h, NextLevel(h, level), index / 2)
  {
  }

  method BuildProofNodesFromLevels(h: Hash, ghost leaves: seq<Digest>, levels: seq<seq<Digest>>, leafIndex: nat)
    returns (nodes: seq<ProofNode>)
    requires leafIndex < |leaves| && levels == Levels(h, leaves)
    ensures nodes == ProofFor(h, leaves, leafIndex)
  {
    LevelsEndInRoot(h, leaves);
    assert levels[0] == leaves && levels[|levels| - 1] == [Root(h, leaves)];
    hide NextLevel, Root;
    nodes := [];
    var index: nat := leafIndex;
    var level := 0;
    while level < |levels| - 1
      invariant 0 <= level <= |levels| - 1
      invariant index < |levels[level]|
      invariant nodes + ProofFor(h, levels[level], index) == ProofFor(h, leaves, leafIndex)
    {
      LevelsTail(h, leaves, level);
      var currentLevel := levels[level];
      var isRightChild := index % 2 == 1;
      var siblingIndex := if isRightChild then index - 1 else index + 1;
      var sibling := if siblingIndex < |currentLevel| then currentLevel[siblingIndex] else currentLevel[index];
      var node := ProofNode(if isRightChild then Left else Right, sibling);
      ProofStep(h, currentLevel, index, node, nodes);
      nodes := nodes + [node];
      index := index / 2;
      level := level + 1;
    }
  }

  // ----- the verifier's walk -----

  /** What one proof node must look like at (index, width) for the current digest. */
  predicate StepAllowed(current: Digest, index: nat, width: nat, node: ProofNode) {
    if width % 2 == 1 && index == width - 1 then node == ProofNode(Right, current)
    else |node.sibling| == 32 && node.position == (if index % 2 == 1 then Left else Right)
  }

  function StepDigest(h: Hash, current: Digest, index: nat, width: nat, node: ProofNode): Digest
    requires StepAllowed(current, index, width, node)
  {
    if node.position == Left then ParentDigest(h, node.sibling, current)
    else ParentDigest(h, current, node.sibling)
  }

  predicate WalkAccepts(h: Hash, current: Digest, index: nat, width: nat, nodes: seq<ProofNode>, root: Bytes)
    decreases |nodes|
  {
    if nodes == [] then width == 1 && current == root
    else (
      && StepAllowed(current, index, width, nodes[0])
      && WalkAccepts(h, StepDigest(h, current, index, width, nodes[0]), index / 2, (width + 1) / 2, nodes[1..], root))
  }

  /** The last step of a walk as bytes: at width one the node has to be the current digest again, on the
      right; at width two it is a digest on the side of the other position. */
  lemma LastStepWritten(h: Hash, current: Digest, index: nat, width: nat, node: ProofNode, root: Bytes)
    requires index < width
    ensures WalkAccepts(h, current, index, width, [node], root) <==>
      || (width == 1 && node == ProofNode(Right, current) && root == h([1] + current + current))
      || (&& width == 2 && |node.sibling| == 32
          && if index == 0 then node.position == Right && root == h([1] + current + node.sibling)
             else node.position == Left && root == h([1] + node.sibling + current))
  {
    assert [node][1..] == [];
  }

  method WalkProof(h: Hash, leaf: Digest, chunkIndex: nat, totalChunkCount: nat, proof: seq<ProofNode>, root: Bytes)
    returns (ok: bool)
    requires forall n | n in proof :: |n.sibling| == 32
    ensures ok == WalkAccepts(h, leaf, chunkIndex, totalChunkCount, proof, root)
  {
    var current: Digest, index: nat, width: nat := leaf, chunkIndex, totalChunkCount;
    var i := 0;
    while i < |proof|
      invariant 0 <= i <= |proof|
      invariant WalkAccepts(h, leaf, chunkIndex, totalChunkCount, proof, root) ==
                WalkAccepts(h, current, index, width, proof[i..], root)
    {
      var node := proof[i];
      assert proof[i..][0] == node && proof[i..][1..] == proof[i + 1..];
      if width % 2 == 1 && index == width - 1 {
        if node.position != Right { return false; }
        if node.sibling != current { return false; }
        current := ParentDigest(h, current, current);
      } else {
        var expectedPosition := if index % 2 == 1 then Left else Right;
        if node.position != expectedPosition { return false; }
        current := if node.position == Left then ParentDigest(h, node.sibling, current)
                   else ParentDigest(h, current, node.sibling);
      }
      index, width := index / 2, (width + 1) / 2;
      i := i + 1;
    }
    if width != 1 { return false; }
    return current == root;
  }

  /** The walk without its final width check. */
  function WalkDigest(h: Hash, current: Digest, index: nat, width: nat, nodes: seq<ProofNode>): Option<Digest>
    decreases |nodes|
  {
    if nodes == [] then Some(current)
    else if !StepAllowed(current, index, width, nodes[0]) then None
    else WalkDigest(h, StepDigest(h, current, index, width, nodes[0]), index / 2, (width + 1) / 2, nodes[1..])
  }

  /** A width after k rounded-up halvings. */
  function Halved(width: nat, k: nat): nat {
    if k == 0 then width else Halved((width + 1) / 2, k - 1)
  }

  lemma {:induction false} WidthReachesOne(width: nat)
    requires width >= 1
    ensures Halved(width, Depth(width)) == 1
  {
    if width > 1 {
      WidthReachesOne((width + 1) / 2);
    }
  }

  /** The verifier compares the root exactly when its steps pass and the width has come down to one. */
  lemma {:induction false} WalkSplits(h: Hash, current: Digest, index: nat, width: nat, nodes: seq<ProofNode>,
      root: Bytes)
    ensures WalkAccepts(h, current, index, width, nodes, root)
      <==> WalkDigest(h, current, index, width, nodes) == Some(root) && Halved(width, |nodes|) == 1
    decreases |nodes|
  {
    if nodes != [] && StepAllowed(current, index, width, nodes[0]) {
      WalkSplits(h, StepDigest(h, current, index, width, nodes[0]), index / 2, (width + 1) / 2, nodes[1..], root);
    }
  }

  // ----- theorems -----

  /** Completeness: the built proof is accepted against the built root. */
  lemma {:induction false} WalkComplete(h: Hash, level: seq<Digest>, index: nat)
    requires index < |level|
    ensures WalkAccepts(h, level[index], index, |level|, ProofFor(h, level, index), Root(h, level))
    decreases |level|
  {
    if |level| > 1 {
      var next := NextLevel(h, level);
      var node := NodeAt(level, index);
      assert StepDigest(h, level[index], index, |level|, node) == next[index / 2];
      WalkComplete(h, next, index / 2);
      assert ProofFor(h, level, index)[1..] == ProofFor(h, next, index / 2);
    }
  }

  /** One step back down: a parent that equals the tree's own pins both of its children. */
  lemma StepSound(h: Hash, level: seq<Digest>, current: Digest, index: nat, node: ProofNode)
      returns (x: Bytes, y: Bytes)
    requires index < |level| && StepAllowed(current, index, |level|, node)
    requires StepDigest(h, current, index, |level|, node) == NextLevel(h, level)[index / 2]
    ensures (current == level[index] && node == NodeAt(level, index)) || Collision(h, x, y)
  {
    var i := index / 2 * 2;
    var left: Digest := if node.position == Left then node.sibling else current;
    var right: Digest := if node.position == Left then current else node.sibling;
    var l, r := level[i], PairRight(level, i);
    x, y := ParentMessage(left, right), ParentMessage(l, r);
    if x == y {
      ParentMessageInjective(left, right, l, r);
    }
  }

  /** Soundness: an accepted walk of the right length started at the tree's own leaf and
      carries exactly the built proof, unless (x, y) is a collision of the hash. */
  lemma {:induction false} WalkSound(h: Hash, level: seq<Digest>, current: Digest, index: nat, nodes: seq<ProofNode>)
    returns (x: Bytes, y: Bytes)
    requires index < |level| && |nodes| == Depth(|level|)
    requires WalkAccepts(h, current, index, |level|, nodes, Root(h, level))
    ensures (current == level[index] && nodes == ProofFor(h, level, index)) || Collision(h, x, y)
    decreases |level|
  {
    x, y := [], [];
    if |level| > 1 {
      var next := NextLevel(h, level);
      var digest := StepDigest(h, current, index, |level|, nodes[0]);
      x, y := WalkSound(h, next, digest, index / 2, nodes[1..]);
      if !Collision(h, x, y) {
        x, y := StepSound(h, level, current, index, nodes[0]);
        assert nodes == [nodes[0]] + nodes[1..];
      }
    }
  }

  // ----- walks that declare another width -----

  /** A step hashes a parent message with the current digest on the side its index tells. */
  lemma StepIsParent(h: Hash, current: Digest, index: nat, width: nat, node: ProofNode) returns (l: Digest, r: Digest)
    requires StepAllowed(current, index, width, node)
    ensures StepDigest(h, current, index, width, node) == ParentDigest(h, l, r)
    ensures current == if index % 2 == 1 then r else l
  {
    l := if node.position == Left then node.sibling else current;
    r := if node.position == Left then current else node.sibling;
  }

  /** Whatever width a walk declares, if it has as many steps as the tree has levels it started at a
      leaf of the tree, and at the one of its index when there is one; or (x, y) collide. */
  lemma {:induction false} WalkStartsAtLeaf(h: Hash, level: seq<Digest>, current: Digest, index: nat, width: nat,
      nodes: seq<ProofNode>)
    returns (i: nat, x: Bytes, y: Bytes)
    requires level != [] && |nodes| == Depth(|level|) && WalkAccepts(h, current, index, width, nodes, Root(h, level))
    ensures Collision(h, x, y) || (i < |level| && current == level[i] && (index < |level| ==> i == index))
    decreases |level|
  {
    i, x, y := 0, [], [];
    if |level| > 1 {
      var next, digest := NextLevel(h, level), StepDigest(h, current, index, width, nodes[0]);
      var j;
      j, x, y := WalkStartsAtLeaf(h, next, digest, index / 2, (width + 1) / 2, nodes[1..]);
      if !Collision(h, x, y) {
        var l, r := StepIsParent(h, current, index, width, nodes[0]);
        var left, right := level[2 * j], PairRight(level, 2 * j);
        assert next[j] == ParentDigest(h, left, right);
        i := if index % 2 == 1 && 2 * j + 1 < |level| then 2 * j + 1 else 2 * j;
        x, y := ParentMessage(l, r), ParentMessage(left, right);
        if x == y {
          ParentMessageInjective(l, r, left, right);
        }
      }
    }
  }

  lemma LeafParentCollide(h: Hash, chunk: Bytes, l: Digest, r: Digest)
    requires LeafDigest(h, chunk) == ParentDigest(h, l, r)
    ensures Collision(h, LeafMessage(chunk), ParentMessage(l, r))
  {
    assert LeafMessage(chunk)[0] == 0 && ParentMessage(l, r)[0] == 1;
  }

  /** A walk with fewer steps than the tree has levels makes a leaf digest a parent digest. */
  lemma {:induction false} ShortWalkCollides(h: Hash, level: seq<Digest>, chunk: Bytes, index: nat, width: nat,
      nodes: seq<ProofNode>)
    returns (x: Bytes, y: Bytes)
    requires |nodes| < Depth(|level|) && WalkAccepts(h, LeafDigest(h, chunk), index, width, nodes, Root(h, level))
    ensures Collision(h, x, y)
    decreases |level|
  {
    var next := NextLevel(h, level);
    if |nodes| < Depth(|next|) {
      x, y := ShortWalkCollides(h, next, chunk, index, width, nodes);
    } else {
      var i;
      i, x, y := WalkStartsAtLeaf(h, next, LeafDigest(h, chunk), index, width, nodes);
      if !Collision(h, x, y) {
        var l, r := level[2 * i], PairRight(level, 2 * i);
        assert next[i] == ParentDigest(h, l, r);
        LeafParentCollide(h, chunk, l, r);
        x, y := LeafMessage(chunk), ParentMessage(l, r);
      }
    }
  }

  /** A walk with more steps than the tree has levels makes a leaf of the tree a parent digest. */
  lemma {:induction false} LongWalkNamesParent(h: Hash, level: seq<Digest>, current: Digest, index: nat, width: nat,
      nodes: seq<ProofNode>)
    returns (i: nat, l: Digest, r: Digest, x: Bytes, y: Bytes)
    requires level != [] && |nodes| > Depth(|level|) && WalkAccepts(h, current, index, width, nodes, Root(h, level))
    ensures Collision(h, x, y) || (i < |level| && level[i] == ParentDigest(h, l, r))
    decreases |nodes|
  {
    var digest := StepDigest(h, current, index, width, nodes[0]);
    if |nodes| - 1 > Depth(|level|) {
      i, l, r, x, y := LongWalkNamesParent(h, level, digest, index / 2, (width + 1) / 2, nodes[1..]);
    } else {
      i, x, y := WalkStartsAtLeaf(h, level, digest, index / 2, (width + 1) / 2, nodes[1..]);
      l, r := StepIsParent(h, current, index, width, nodes[0]);
    }
  }

  /** No walk reaches the root of the empty tree. */
  lemma {:induction false} EmptyWalkCollides(h: Hash, message: Bytes, current: Digest, index: nat, width: nat,
      nodes: seq<ProofNode>)
    returns (x: Bytes, y: Bytes)
    requires message != [] && message[0] != 2 && current == h(message)
      && WalkAccepts(h, current, index, width, nodes, EmptyRoot(h))
    ensures Collision(h, x, y)
    decreases |nodes|
  {
    x, y := message, [2];
    if nodes != [] {
      var l, r := StepIsParent(h, current, index, width, nodes[0]);
      x, y := EmptyWalkCollides(h, ParentMessage(l, r), ParentDigest(h, l, r), index / 2, (width + 1) / 2, nodes[1..]);
    }
  }

  /** Soundness whatever width is declared: an accepted walk from a leaf digest has the depth of the
      tree and started at one of its leaves, the one of its index if there is one; or a leaf of the
      tree is itself a parent digest; or (x, y) collide. */
  lemma WalkSoundAnyWidth(h: Hash, level: seq<Digest>, chunk: Bytes, index: nat, width: nat, nodes: seq<ProofNode>)
    returns (i: nat, l: Digest, r: Digest, x: Bytes, y: Bytes)
    requires WalkAccepts(h, LeafDigest(h, chunk), index, width, nodes, Root(h, level))
    ensures || Collision(h, x, y)
            || (i < |level| && level[i] == ParentDigest(h, l, r))
            || (&& |nodes| == Depth(|level|) && i < |level| && LeafDigest(h, chunk) == level[i]
                && (index < |level| ==> i == index))
  {
    l, r := EmptyRoot(h), EmptyRoot(h);
    i := 0;
    if level == [] {
      x, y := EmptyWalkCollides(h, LeafMessage(chunk), LeafDigest(h, chunk), index, width, nodes);
    } else if |nodes| < Depth(|level|) {
      x, y := ShortWalkCollides(h, level, chunk, index, width, nodes);
    } else if |nodes| > Depth(|level|) {
      i, l, r, x, y := LongWalkNamesParent(h, level, LeafDigest(h, chunk), index, width, nodes);
    } else {
      i, x, y := WalkStartsAtLeaf(h, level, LeafDigest(h, chunk), index, width, nodes);
    }
  }

  // ----- trees that share a root -----

  /** The leaf of an n-leaf tree that position i stands for, when every odd level repeats its last node. */
  function Origin(n: nat, i: nat): (o: nat)
    requires n > 0
    ensures o < n
  {
    if n == 1 then 0
    else
      var o := 2 * Origin((n + 1) / 2, i / 2) + i % 2;
      if o < n then o else n - 1
  }

  lemma {:induction false} OriginBelow(n: nat, i: nat)
    requires i < n
    ensures Origin(n, i) == i
  {
    if n > 1 {
      OriginBelow((n + 1) / 2, i / 2);
    }
  }

  /** The last position below the next power of two stands for the last leaf. */
  lemma {:induction false} OriginOfLast(n: nat)
    requires n > 0
    ensures Origin(n, Pow2(Depth(n)) - 1) == n - 1
  {
    hide Pow2, Depth;
    PowerOfDepth(n);
    if n > 1 {
      var p := Pow2(Depth((n + 1) / 2));
      OriginOfLast((n + 1) / 2);
      assert (2 * p - 1) / 2 == p - 1 && (2 * p - 1) % 2 == 1;
    }
  }

  /** A tree of `width` leaves: each position repeats the leaf it stands for. */
  function Pad(leaves: seq<Digest>, width: nat): (wide: seq<Digest>)
    requires leaves != []
    ensures |wide| == width && forall i | 0 <= i < width :: wide[i] == leaves[Origin(|leaves|, i)]
  {
    seq(width, i requires 0 <= i < width => leaves[Origin(|leaves|, i)])
  }

  lemma OriginOfPair(n: nat, q: nat)
    requires n > 1
    ensures var o := Origin((n + 1) / 2, q);
      Origin(n, 2 * q) == 2 * o && Origin(n, 2 * q + 1) == if 2 * o + 1 < n then 2 * o + 1 else 2 * o
  {
    assert (2 * q) / 2 == q && (2 * q + 1) / 2 == q;
  }

  lemma OriginOfParent(n: nat, i: nat)
    requires n > 1 && Origin(n, i) == n - 1
    ensures Origin((n + 1) / 2, i / 2) == (n + 1) / 2 - 1
  {
  }

  lemma NextOfPadAt(h: Hash, leaves: seq<Digest>, width: nat, q: nat)
    requires 1 < |leaves| <= width && Origin(|leaves|, width - 1) == |leaves| - 1 && q < (width + 1) / 2
    ensures var o := Origin((|leaves| + 1) / 2, q);
      && 2 * o < |leaves| && Pad(leaves, width)[2 * q] == leaves[2 * o]
      && PairRight(Pad(leaves, width), 2 * q) == PairRight(leaves, 2 * o)
  {
    hide Origin, Pad;
    OriginOfPair(|leaves|, q);
    assert 2 * q < width;
    if 2 * q + 1 >= width {
      assert 2 * q == width - 1;
    }
  }

  lemma NextOfPad(h: Hash, leaves: seq<Digest>, width: nat)
    requires 1 < |leaves| <= width && Origin(|leaves|, width - 1) == |leaves| - 1
    ensures NextLevel(h, Pad(leaves, width)) == Pad(NextLevel(h, leaves), (width + 1) / 2)
  {
    hide Origin;
    var next, wide := NextLevel(h, leaves), Pad(leaves, width);
    forall q | 0 <= q < (width + 1) / 2
      ensures NextLevel(h, wide)[q] == next[Origin(|next|, q)]
    {
      NextOfPadAt(h, leaves, width, q);
      hide PairRight, Pad;
    }
  }

  /** The root alone does not fix the width: up to the next power of two, every width whose last
      position stands for the last leaf has the same root. */
  lemma {:induction false} RootOfPad(h: Hash, leaves: seq<Digest>, width: nat)
    requires 0 < |leaves| <= width <= Pow2(Depth(|leaves|)) && Origin(|leaves|, width - 1) == |leaves| - 1
    ensures Root(h, Pad(leaves, width)) == Root(h, leaves)
    decreases |leaves|
  {
    hide Root, NextLevel, Origin, Pad, Pow2, Depth;
    if |leaves| == 1 {
      PowerOfDepth(1);
      assert Pad(leaves, width) == leaves;
    } else {
      PowerOfDepth(|leaves|);
      OriginOfParent(|leaves|, width - 1);
      NextOfPad(h, leaves, width);
      RootOfNext(h, leaves);
      RootOfNext(h, Pad(leaves, width));
      assert (width - 1) / 2 == (width + 1) / 2 - 1;
      RootOfPad(h, NextLevel(h, leaves), (width + 1) / 2);
    }
  }

  lemma PowerOfDepth(n: nat)
    requires n > 0
    ensures Pow2(Depth(n)) == if n == 1 then 1 else 2 * Pow2(Depth((n + 1) / 2))
  {
  }

  lemma RootOfNext(h: Hash, level: seq<Digest>)
    requires |level| > 1
    ensures Root(h, level) == Root(h, NextLevel(h, level)) && |NextLevel(h, level)| == (|level| + 1) / 2
  {
  }

  /** In particular repeating the last leaf of an odd level of at least three keeps the root. */
  lemma RootIgnoresDuplicatedLast(h: Hash, leaves: seq<Digest>)
    requires |leaves| >= 3 && |leaves| % 2 == 1
    ensures Root(h, leaves + [leaves[|leaves| - 1]]) == Root(h, leaves)
  {
    hide Root, Origin, Pow2, Depth;
    var n := |leaves|;
    PadByOne(leaves);
    WidthBelowPower(n);
    PowerOfDepth(n);
    RootOfPad(h, leaves, n + 1);
  }

  lemma OriginAtWidth(n: nat)
    requires n >= 3 && n % 2 == 1
    ensures Origin(n, n) == n - 1
  {
    OriginBelow((n + 1) / 2, n / 2);
  }

  lemma PadByOne(leaves: seq<Digest>)
    requires |leaves| >= 3 && |leaves| % 2 == 1
    ensures Origin(|leaves|, |leaves|) == |leaves| - 1
    ensures Pad(leaves, |leaves| + 1) == leaves + [leaves[|leaves| - 1]]
  {
    var n := |leaves|;
    OriginAtWidth(n);
    hide Origin;
    forall i | 0 <= i < n
      ensures Pad(leaves, n + 1)[i] == leaves[i]
    {
      OriginBelow(n, i);
    }
  }

  /** 2^Depth(n) is the least power of two that is at least n. */
  lemma {:induction false} WidthBelowPower(n: nat)
    ensures n <= Pow2(Depth(n))
  {
    if n > 1 {
      WidthBelowPower((n + 1) / 2);
    }
  }

  lemma {:induction false} PowerGrows(d: nat, e: nat)
    requires d <= e
    ensures Pow2(d) <= Pow2(e)
  {
    if d > 0 {
      PowerGrows(d - 1, e - 1);
    }
  }

  lemma {:induction false} DepthOfPower(d: nat)
    ensures Depth(Pow2(d)) == d
  {
    if d > 0 {
      DepthOfPower(d - 1);
    }
  }
}
