/**
  The append-only log: the forest root that splits at the largest power of two, and consistency
  proofs between two sizes of the log (antiforgery/src/merkle.rs:214-401; section 2.1.2 of RFC 6962).
 */
module MerkleLog {
  import opened MerkleTree
  import opened Options

  datatype Node = Node(start: nat, size: nat, hash: Digest)

  datatype ConsistencyProof = ConsistencyProof(m: nat, n: nat, nodes: seq<Node>)

  // ---- Powers of two ----

  predicate IsPow2(k: nat) {
    k == 1 || (k > 1 && k % 2 == 0 && IsPow2(k / 2))
  }

  function Grow(k: nat, x: nat): nat
    requires k > 0
    decreases x - k
  {
    if k * 2 < x then Grow(k * 2, x) else k
  }

  /** The largest power of two strictly less than x. */
  function LargestPow2Lt(x: nat): (k: nat)
    requires x >= 2
    ensures 0 < k < x <= 2 * k
  {
    GrowBounds(1, x);
    Grow(1, x)
  }

  lemma {:induction false} GrowBounds(k: nat, x: nat)
    requires 0 < k < x
    ensures 0 < Grow(k, x) < x <= 2 * Grow(k, x)
    ensures IsPow2(k) ==> IsPow2(Grow(k, x))
    decreases x - k
  {
    if k * 2 < x {
      GrowBounds(k * 2, x);
    }
  }

  method LargestPow2LtLoop(x: nat) returns (k: nat)
    requires x >= 2
    ensures k == LargestPow2Lt(x)
  {
    k := 1;
    while k * 2 < x
      invariant 0 < k < x && Grow(k, x) == Grow(1, x)
      decreases x - k
    {
      k := k * 2;
    }
  }

  lemma LargestIsPow2(x: nat)
    requires x >= 2
    ensures IsPow2(LargestPow2Lt(x))
  {
    GrowBounds(1, x);
  }

  /** Between two powers of two there is room for no third. */
  lemma {:induction false} Pow2Unique(j: nat, k: nat)
    requires IsPow2(j) && IsPow2(k) && k < 2 * j && j < 2 * k
    ensures j == k
    decreases j
  {
    if j > 1 && k > 1 {
      Pow2Unique(j / 2, k / 2);
    }
  }

  /** A prefix longer than the split point splits at the same point as the whole. */
  lemma PrefixSplitsAlike(m: nat, size: nat)
    requires size >= 2 && LargestPow2Lt(size) < m <= size
    ensures LargestPow2Lt(m) == LargestPow2Lt(size)
  {
    LargestIsPow2(size);
    LargestIsPow2(m);
    Pow2Unique(LargestPow2Lt(m), LargestPow2Lt(size));
  }

  // ---- The forest root ----

  function SubtreeHash(leaves: seq<Digest>, first: nat, last: nat): Digest
    requires first < last <= |leaves|
    decreases last - first
  {
    if last - first == 1 then leaves[first]
    else
      var k := LargestPow2Lt(last - first);
      NodeHash(SubtreeHash(leaves, first, first + k), SubtreeHash(leaves, first + k, last))
  }

  function ForestRoot(leaves: seq<Digest>): Option<Digest> {
    if leaves == [] then None else Some(SubtreeHash(leaves, 0, |leaves|))
  }

  /** A subtree hash depends on the leaves of its range alone. */
  lemma {:induction false} SubtreeHashLocal(a: seq<Digest>, b: seq<Digest>, first: nat, last: nat)
    requires first < last <= |a| && last <= |b| && forall i :: first <= i < last ==> a[i] == b[i]
    ensures SubtreeHash(a, first, last) == SubtreeHash(b, first, last)
    decreases last - first
  {
    if last - first > 1 {
      var k := LargestPow2Lt(last - first);
      SubtreeHashLocal(a, b, first, first + k);
      SubtreeHashLocal(a, b, first + k, last);
    }
  }

  ghost predicate AllLeaves(leaves: seq<Digest>) {
    forall i :: 0 <= i < |leaves| ==> leaves[i].LeafHash?
  }

  /** and, for leaf hashes, determines them. */
  lemma {:induction false} SubtreeHashInjective(a: seq<Digest>, b: seq<Digest>, first: nat, last: nat)
    requires first < last <= |a| && last <= |b| && SubtreeHash(a, first, last) == SubtreeHash(b, first, last)
    ensures forall i :: first <= i < last ==> a[i] == b[i]
    decreases last - first
  {
    if last - first > 1 {
      var k := LargestPow2Lt(last - first);
      SubtreeHashInjective(a, b, first, first + k);
      SubtreeHashInjective(a, b, first + k, last);
    }
  }

  // ---- At powers of two the two tree constructions agree ----

  lemma {:induction false} SplitOfPow2(size: nat)
    requires size >= 2 && IsPow2(size)
    ensures LargestPow2Lt(size) == size / 2
  {
    LargestIsPow2(size);
    Pow2Unique(LargestPow2Lt(size), size / 2);
  }

  lemma HalvesOfPow2(level: seq<Digest>, first: nat, half: nat)
    requires half > 0 && IsPow2(2 * half) && first + 2 * half <= |level|
    ensures SubtreeHash(level, first, first + 2 * half) ==
            NodeHash(SubtreeHash(level, first, first + half), SubtreeHash(level, first + half, first + 2 * half))
  {
    SplitOfPow2(2 * half);
  }

  ghost predicate ArePairs(level: seq<Digest>, up: seq<Digest>) {
    |level| == 2 * |up| && forall i {:trigger up[i]} :: 0 <= i < |up| ==>
      up[i] == NodeHash(level[2 * i], level[2 * i + 1])
  }

  lemma UpIsPairs(level: seq<Digest>)
    requires level != [] && |level| % 2 == 0
    ensures ArePairs(level, Up(level))
  {
    forall i | 0 <= i < |Up(level)| ensures Up(level)[i] == NodeHash(level[2 * i], level[2 * i + 1]) {
      ParentAt(level, i);
      PaddedAt(level, 2 * i);
      PaddedAt(level, 2 * i + 1);
    }
  }

  lemma PairsOfDouble(level: seq<Digest>, up: seq<Digest>, first: nat, h: nat)
    requires ArePairs(level, up) && h > 0 && IsPow2(2 * h) && first + 2 * h <= |up|
    requires SubtreeHash(up, first, first + h) == SubtreeHash(level, 2 * first, 2 * first + 2 * h)
    requires SubtreeHash(up, first + h, first + 2 * h) == SubtreeHash(level, 2 * first + 2 * h, 2 * first + 4 * h)
    ensures SubtreeHash(up, first, first + 2 * h) == SubtreeHash(level, 2 * first, 2 * first + 4 * h)
  {
    HalvesOfPow2(up, first, h);
    HalvesOfPow2(level, 2 * first, 2 * h);
  }

  lemma PairsOfOne(level: seq<Digest>, up: seq<Digest>, first: nat)
    requires ArePairs(level, up) && first < |up|
    ensures SubtreeHash(up, first, first + 1) == SubtreeHash(level, 2 * first, 2 * first + 2)
  {
    HalvesOfPow2(level, 2 * first, 1);
  }

  lemma {:induction false} PairsSubtreeHash(level: seq<Digest>, up: seq<Digest>, first: nat, size: nat)
    requires ArePairs(level, up) && IsPow2(size) && first + size <= |up|
    ensures SubtreeHash(up, first, first + size) == SubtreeHash(level, 2 * first, 2 * first + 2 * size)
    decreases size
  {
    if size == 1 {
      PairsOfOne(level, up, first);
    } else {
      var h := size / 2;
      PairsSubtreeHash(level, up, first, h);
      PairsSubtreeHash(level, up, first + h, h);
      PairsOfDouble(level, up, first, h);
    }
  }

  /** One level up, ranges halve. */
  lemma SubtreeHashUp(level: seq<Digest>, first: nat, size: nat)
    requires level != [] && |level| % 2 == 0 && IsPow2(size) && 2 * (first + size) <= |level|
    ensures SubtreeHash(Up(level), first, first + size) == SubtreeHash(level, 2 * first, 2 * (first + size))
  {
    UpIsPairs(level);
    PairsSubtreeHash(level, Up(level), first, size);
  }

  /** For a power-of-two number of leaves the duplicate-last root is the forest root. */
  lemma {:induction false} RootsAgreeAtPow2(level: seq<Digest>)
    requires IsPow2(|level|)
    ensures Root(level) == SubtreeHash(level, 0, |level|)
    decreases |level|
  {
    if |level| > 1 {
      RootsAgreeAtPow2(Up(level));
      SubtreeHashUp(level, 0, |level| / 2);
    }
  }

  // ---- Consistency proofs ----

  function Subproof(m: nat, first: nat, last: nat, known: bool, leaves: seq<Digest>): seq<Node>
    requires 0 < m <= last - first && last <= |leaves|
    decreases last - first
  {
    var size := last - first;
    if m == size then
      if known then [] else [Node(first, size, SubtreeHash(leaves, first, last))]
    else
      var k := LargestPow2Lt(size);
      if m <= k then
        Subproof(m, first, first + k, known, leaves) + [Node(first + k, size - k, SubtreeHash(leaves, first + k, last))]
      else
        Subproof(m - k, first + k, last, false, leaves) + [Node(first, k, SubtreeHash(leaves, first, first + k))]
  }

  function BuildConsistency(leaves: seq<Digest>, m: nat): Option<ConsistencyProof> {
    var n := |leaves|;
    if m == 0 || m >= n then None else Some(ConsistencyProof(m, n, Subproof(m, 0, n, true, leaves)))
  }

  /** The node of a range. */
  function NodeOf(leaves: seq<Digest>, start: nat, size: nat): Node
    requires size > 0 && start + size <= |leaves|
  {
    Node(start, size, SubtreeHash(leaves, start, start + size))
  }

  lemma SplitPoints()
    ensures LargestPow2Lt(7) == 4 && LargestPow2Lt(4) == 2 && LargestPow2Lt(3) == 2 && LargestPow2Lt(2) == 1
  {
  }

  /** The examples of section 2.1.3 of RFC 6962: the proofs for 3, 4 and 6 out of seven leaves, node by node. */
  lemma SevenLeaves(leaves: seq<Digest>)
    requires |leaves| == 7
    ensures Subproof(3, 0, 7, true, leaves) ==
            [NodeOf(leaves, 2, 1), NodeOf(leaves, 3, 1), NodeOf(leaves, 0, 2), NodeOf(leaves, 4, 3)]
    ensures Subproof(4, 0, 7, true, leaves) == [NodeOf(leaves, 4, 3)]
    ensures Subproof(6, 0, 7, true, leaves) ==
            [NodeOf(leaves, 4, 2), NodeOf(leaves, 6, 1), NodeOf(leaves, 0, 4)]
  {
    SplitPoints();
    assert Subproof(1, 2, 3, false, leaves) == [NodeOf(leaves, 2, 1)];
    assert Subproof(1, 2, 4, false, leaves) == [NodeOf(leaves, 2, 1)] + [NodeOf(leaves, 3, 1)];
    assert Subproof(3, 0, 4, true, leaves) == Subproof(1, 2, 4, false, leaves) + [NodeOf(leaves, 0, 2)];
    assert Subproof(2, 4, 6, false, leaves) == [NodeOf(leaves, 4, 2)];
    assert Subproof(2, 4, 7, false, leaves) == [NodeOf(leaves, 4, 2)] + [NodeOf(leaves, 6, 1)];
    assert Subproof(4, 0, 4, true, leaves) == [];
  }

  predicate CoversRange(node: Node, first: nat, size: nat) {
    node.start == first && node.size == size
  }

  /** The first node from i on that covers exactly [first, first + size). */
  function FindFrom(nodes: seq<Node>, first: nat, size: nat, i: nat): (r: Option<nat>)
    requires i <= |nodes|
    ensures r.Some? ==> i <= r.value < |nodes| && CoversRange(nodes[r.value], first, size)
    decreases |nodes| - i
  {
    if i == |nodes| then None else if CoversRange(nodes[i], first, size) then Some(i)
      else FindFrom(nodes, first, size, i + 1)
  }

  function Find(nodes: seq<Node>, first: nat, size: nat): (r: Option<nat>)
    ensures r.Some? ==> r.value < |nodes| && CoversRange(nodes[r.value], first, size)
  {
    FindFrom(nodes, first, size, 0)
  }

  lemma {:induction false} FindFromPresent(nodes: seq<Node>, first: nat, size: nat, i: nat, j: nat)
    requires i <= j < |nodes| && CoversRange(nodes[j], first, size)
    ensures FindFrom(nodes, first, size, i).Some? && FindFrom(nodes, first, size, i).value <= j
    decreases j - i
  {
    if i < j && !CoversRange(nodes[i], first, size) {
      FindFromPresent(nodes, first, size, i + 1, j);
    }
  }

  function Reconstruct(first: nat, last: nat, nodes: seq<Node>): Option<Digest>
    requires first <= last
    decreases last - first
  {
    var size := last - first;
    match Find(nodes, first, size)
    case Some(i) => Some(nodes[i].hash)
    case None =>
      if size <= 1 then None
      else
        var k := LargestPow2Lt(size);
        match Reconstruct(first, first + k, nodes)
        case None => None
        case Some(left) =>
          match Reconstruct(first + k, last, nodes)
          case None => None
          case Some(right) => Some(NodeHash(left, right))
  }

  function WithOldRoot(m: nat, nodes: seq<Node>, oldRoot: Digest): seq<Node> {
    if IsPow2(m) then nodes + [Node(0, m, oldRoot)] else nodes
  }

  predicate VerifyConsistency(oldRoot: Digest, newRoot: Digest, proof: ConsistencyProof) {
    var m, n, nodes := proof.m, proof.n, proof.nodes;
    if m == 0 then
      match Reconstruct(0, n, nodes) case None => true case Some(r) => r == newRoot
    else if m >= n then
      m == n && nodes == [] && oldRoot == newRoot
    else
      && (IsPow2(m) || Reconstruct(0, m, nodes) == Some(oldRoot))
      && Reconstruct(0, n, WithOldRoot(m, nodes, oldRoot)) == Some(newRoot)
  }

  // ---- Completeness ----

  /** What a range without a node of its own is reconstructed from. */
  lemma ReconstructSplit(first: nat, last: nat, nodes: seq<Node>)
    requires last - first >= 2
    ensures var k := LargestPow2Lt(last - first);
            var left, right := Reconstruct(first, first + k, nodes), Reconstruct(first + k, last, nodes);
            Reconstruct(first, last, nodes) ==
              match Find(nodes, first, last - first)
              case Some(i) => Some(nodes[i].hash)
              case None => if left.Some? && right.Some? then Some(NodeHash(left.value, right.value)) else None
  {
  }

  /** A node that carries the hash of its range. */
  ghost predicate HonestNode(node: Node, leaves: seq<Digest>) {
    && node.size > 0 && node.start + node.size <= |leaves|
    && node.hash == SubtreeHash(leaves, node.start, node.start + node.size)
  }

  ghost predicate Honest(nodes: seq<Node>, leaves: seq<Digest>) {
    forall i :: 0 <= i < |nodes| ==> HonestNode(nodes[i], leaves)
  }

  lemma {:induction false} HonestReconstruct(first: nat, last: nat, nodes: seq<Node>, leaves: seq<Digest>)
    requires first < last <= |leaves| && Honest(nodes, leaves)
    ensures Reconstruct(first, last, nodes).Some? ==>
            Reconstruct(first, last, nodes) == Some(SubtreeHash(leaves, first, last))
    decreases last - first
  {
    var found := Find(nodes, first, last - first);
    if found.Some? {
      assert HonestNode(nodes[found.value], leaves);
    } else if last - first > 1 {
      var k := LargestPow2Lt(last - first);
      HonestReconstruct(first, first + k, nodes, leaves);
      HonestReconstruct(first + k, last, nodes, leaves);
      ReconstructSplit(first, last, nodes);
    }
  }

  lemma HonestAppend(nodes: seq<Node>, node: Node, leaves: seq<Digest>)
    requires Honest(nodes, leaves) && HonestNode(node, leaves)
    ensures Honest(nodes + [node], leaves)
  {
  }

  lemma {:induction false} SubproofHonest(m: nat, first: nat, last: nat, known: bool, leaves: seq<Digest>)
    requires 0 < m <= last - first && last <= |leaves|
    ensures Honest(Subproof(m, first, last, known, leaves), leaves)
    decreases last - first, 1
  {
    if m < last - first {
      if m <= LargestPow2Lt(last - first) {
        LeftHonest(m, first, last, known, leaves);
      } else {
        RightHonest(m, first, last, known, leaves);
      }
    }
  }

  lemma {:induction false} LeftHonest(m: nat, first: nat, last: nat, known: bool, leaves: seq<Digest>)
    requires 0 < m < last - first && last <= |leaves| && m <= LargestPow2Lt(last - first)
    ensures Honest(Subproof(m, first, last, known, leaves), leaves)
    decreases last - first, 0
  {
    var size := last - first;
    var k := LargestPow2Lt(size);
    var rest, node := Subproof(m, first, first + k, known, leaves),
      Node(first + k, size - k, SubtreeHash(leaves, first + k, last));
    SubproofHonest(m, first, first + k, known, leaves);
    assert HonestNode(node, leaves);
    HonestAppend(rest, node, leaves);
  }

  lemma {:induction false} RightHonest(m: nat, first: nat, last: nat, known: bool, leaves: seq<Digest>)
    requires 0 < m < last - first && last <= |leaves| && m > LargestPow2Lt(last - first)
    ensures Honest(Subproof(m, first, last, known, leaves), leaves)
    decreases last - first, 0
  {
    var k := LargestPow2Lt(last - first);
    var rest, node := Subproof(m - k, first + k, last, false, leaves),
      Node(first, k, SubtreeHash(leaves, first, first + k));
    SubproofHonest(m - k, first + k, last, false, leaves);
    assert HonestNode(node, leaves);
    HonestAppend(rest, node, leaves);
  }

  ghost predicate Includes(nodes: seq<Node>, part: seq<Node>) {
    forall i :: 0 <= i < |part| ==> part[i] in nodes
  }

  lemma FoundIfPresent(nodes: seq<Node>, node: Node)
    requires node in nodes
    ensures Find(nodes, node.start, node.size).Some?
  {
    var j :| 0 <= j < |nodes| && nodes[j] == node;
    FindFromPresent(nodes, node.start, node.size, 0, j);
  }

  lemma IncludesAppend(nodes: seq<Node>, part: seq<Node>, node: Node)
    requires Includes(nodes, part + [node])
    ensures Includes(nodes, part) && node in nodes
  {
    forall i | 0 <= i < |part| ensures part[i] in nodes {
      assert part[i] == (part + [node])[i];
    }
    assert (part + [node])[|part|] == node;
  }

  lemma Covered(nodes: seq<Node>, node: Node)
    requires node in nodes
    ensures Reconstruct(node.start, node.start + node.size, nodes).Some?
  {
    FoundIfPresent(nodes, node);
  }

  lemma JoinHalves(first: nat, last: nat, nodes: seq<Node>)
    requires last - first >= 2
    requires var k := LargestPow2Lt(last - first);
             Reconstruct(first, first + k, nodes).Some? && Reconstruct(first + k, last, nodes).Some?
    ensures Reconstruct(first, last, nodes).Some?
  {
    ReconstructSplit(first, last, nodes);
  }

  /** The node a proof adds on the way down, and the rest of the proof. */
  lemma SubproofParts(m: nat, first: nat, last: nat, known: bool, leaves: seq<Digest>, nodes: seq<Node>)
    requires 0 < m < last - first && last <= |leaves|
    requires Includes(nodes, Subproof(m, first, last, known, leaves))
    ensures var k := LargestPow2Lt(last - first);
            if m <= k
            then
              && Includes(nodes, Subproof(m, first, first + k, known, leaves))
              && Reconstruct(first + k, last, nodes).Some?
            else
              && Includes(nodes, Subproof(m - k, first + k, last, false, leaves))
              && Reconstruct(first, first + k, nodes).Some?
  {
    var size := last - first;
    var k := LargestPow2Lt(size);
    if m <= k {
      var node := Node(first + k, size - k, SubtreeHash(leaves, first + k, last));
      IncludesAppend(nodes, Subproof(m, first, first + k, known, leaves), node);
      Covered(nodes, node);
    } else {
      var node := Node(first, k, SubtreeHash(leaves, first, first + k));
      IncludesAppend(nodes, Subproof(m - k, first + k, last, false, leaves), node);
      Covered(nodes, node);
    }
  }

  lemma WholeRangeCovered(first: nat, last: nat, known: bool, leaves: seq<Digest>, nodes: seq<Node>)
    requires first < last <= |leaves| && Includes(nodes, Subproof(last - first, first, last, known, leaves))
    requires known ==> Find(nodes, first, last - first).Some?
    ensures Reconstruct(first, last, nodes).Some?
  {
    if !known {
      Covered(nodes, Subproof(last - first, first, last, known, leaves)[0]);
    }
  }

  /** A prefix longer than the left half splits where the whole range does. */
  lemma PrefixCovered(m: nat, first: nat, last: nat, nodes: seq<Node>)
    requires 0 < m < last - first && LargestPow2Lt(last - first) < m
    requires var k := LargestPow2Lt(last - first);
             Reconstruct(first, first + k, nodes).Some? && Reconstruct(first + k, first + m, nodes).Some?
    ensures Reconstruct(first, first + m, nodes).Some?
  {
    PrefixSplitsAlike(m, last - first);
    JoinHalves(first, first + m, nodes);
  }

  /**
    A proof covers both the whole range and its prefix. When the boundary is known its own node is
    left out, which happens only at a power of two; there the caller supplies it.
   */
  lemma {:induction false} SubproofCovers(m: nat, first: nat, last: nat, known: bool, leaves: seq<Digest>,
                                          nodes: seq<Node>)
    requires 0 < m <= last - first && last <= |leaves|
    requires Includes(nodes, Subproof(m, first, last, known, leaves))
    requires known ==> Find(nodes, first, m).Some? || (m < last - first && !IsPow2(m))
    ensures Reconstruct(first, last, nodes).Some?
    ensures Reconstruct(first, first + m, nodes).Some?
    decreases last - first, 1
  {
    if m == last - first {
      WholeRangeCovered(first, last, known, leaves, nodes);
    } else {
      SubproofParts(m, first, last, known, leaves, nodes);
      if m <= LargestPow2Lt(last - first) {
        LeftCovers(m, first, last, known, leaves, nodes);
      } else {
        RightCovers(m, first, last, leaves, nodes);
      }
    }
  }

  /** The boundary lies in the left half: the proof is one for the left half and the right half's node. */
  lemma {:induction false} LeftCovers(m: nat, first: nat, last: nat, known: bool, leaves: seq<Digest>, nodes: seq<Node>)
    requires 0 < m < last - first && last <= |leaves| && m <= LargestPow2Lt(last - first)
    requires var k := LargestPow2Lt(last - first);
             Includes(nodes, Subproof(m, first, first + k, known, leaves)) && Reconstruct(first + k, last, nodes).Some?
    requires known ==> Find(nodes, first, m).Some? || !IsPow2(m)
    ensures Reconstruct(first, last, nodes).Some? && Reconstruct(first, first + m, nodes).Some?
    decreases last - first, 0
  {
    LargestIsPow2(last - first);
    SubproofCovers(m, first, first + LargestPow2Lt(last - first), known, leaves, nodes);
    JoinHalves(first, last, nodes);
  }

  /** The boundary lies in the right half: the proof is one for the right half and the left half's node. */
  lemma {:induction false} RightCovers(m: nat, first: nat, last: nat, leaves: seq<Digest>, nodes: seq<Node>)
    requires 0 < m < last - first && last <= |leaves| && m > LargestPow2Lt(last - first)
    requires var k := LargestPow2Lt(last - first);
             Includes(nodes, Subproof(m - k, first + k, last, false, leaves))
               && Reconstruct(first, first + k, nodes).Some?
    ensures Reconstruct(first, last, nodes).Some? && Reconstruct(first, first + m, nodes).Some?
    decreases last - first, 0
  {
    var k := LargestPow2Lt(last - first);
    SubproofCovers(m - k, first + k, last, false, leaves, nodes);
    PrefixCovered(m, first, last, nodes);
    JoinHalves(first, last, nodes);
  }

  /** Every proof the log issues is accepted against the forest roots of the prefix and the whole. */
  lemma ConsistencyComplete(leaves: seq<Digest>, m: nat)
    requires 0 < m < |leaves|
    ensures BuildConsistency(leaves, m).Some?
    ensures VerifyConsistency(ForestRoot(leaves[..m]).value, ForestRoot(leaves).value,
                              BuildConsistency(leaves, m).value)
  {
    var n := |leaves|;
    var nodes := Subproof(m, 0, n, true, leaves);
    var oldRoot := SubtreeHash(leaves[..m], 0, m);
    SubtreeHashLocal(leaves[..m], leaves, 0, m);
    SubproofHonest(m, 0, n, true, leaves);
    var all := WithOldRoot(m, nodes, oldRoot);
    if IsPow2(m) {
      HonestAppend(nodes, Node(0, m, oldRoot), leaves);
      FoundIfPresent(all, Node(0, m, oldRoot));
    }
    SubproofCovers(m, 0, n, true, leaves, all);
    HonestReconstruct(0, n, all, leaves);
    HonestReconstruct(0, m, all, leaves);
  }
}
