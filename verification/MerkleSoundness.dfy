/**
  What an accepted consistency proof is worth (antiforgery/src/merkle.rs:342-401).

  The verifier does not check which ranges the proof's nodes cover, and where the proof states an
  old size of zero it does not look at the old root, so acceptance alone does not make the old log
  a prefix of the new one. Of the sizes and ranges that can be accepted at all, those that show it,
  whatever the hashes, are the ones that are `Anchored`: the old size is not zero, and every node
  read to rebuild the old root is also read to rebuild the new root (`ShowsPrefixIff`). Every proof
  the log issues is.
 */
module MerkleSoundness {
  import opened MerkleTree
  import opened MerkleLog
  import opened Options

  /** The indices of the nodes that reconstructing [first, last) reads. */
  function Used(first: nat, last: nat, nodes: seq<Node>): (u: set<nat>)
    requires first <= last
    decreases last - first
  {
    var size := last - first;
    match Find(nodes, first, size)
    case Some(i) => {i}
    case None =>
      if size <= 1 then {}
      else
        var k := LargestPow2Lt(size);
        Used(first, first + k, nodes) + Used(first + k, last, nodes)
  }

  lemma UsedSplit(first: nat, last: nat, nodes: seq<Node>)
    requires last - first >= 2 && Find(nodes, first, last - first).None?
    ensures var k := LargestPow2Lt(last - first);
            Used(first, last, nodes) == Used(first, first + k, nodes) + Used(first + k, last, nodes)
  {
  }

  /** The nodes that decide about the old root: the supplied one at a power of two, else those it is rebuilt from. */
  function ReadForOld(m: nat, nodes: seq<Node>): set<nat> {
    if IsPow2(m) then {|nodes|} else Used(0, m, nodes)
  }

  /** The nodes read to rebuild the new root; the hash of the supplied node does not matter for this. */
  function ReadForNew(m: nat, n: nat, nodes: seq<Node>): set<nat> {
    Used(0, n, WithOldRoot(m, nodes, Unhashed(0)))
  }

  predicate Anchored(proof: ConsistencyProof) {
    && proof.m > 0
    && (proof.m < proof.n ==> ReadForOld(proof.m, proof.nodes) <= ReadForNew(proof.m, proof.n, proof.nodes))
  }

  // ---- Reads depend on ranges only ----

  ghost predicate SameRanges(a: seq<Node>, b: seq<Node>) {
    |a| == |b| && forall i :: 0 <= i < |a| ==> a[i].start == b[i].start && a[i].size == b[i].size
  }

  lemma {:induction false} FindFromSameRanges(a: seq<Node>, b: seq<Node>, first: nat, size: nat, i: nat)
    requires SameRanges(a, b) && i <= |a|
    ensures FindFrom(a, first, size, i) == FindFrom(b, first, size, i)
    decreases |a| - i
  {
    if i < |a| {
      FindFromSameRanges(a, b, first, size, i + 1);
    }
  }

  lemma {:induction false} SameRangesSameUsed(a: seq<Node>, b: seq<Node>, first: nat, last: nat)
    requires SameRanges(a, b) && first <= last
    ensures Used(first, last, a) == Used(first, last, b)
    decreases last - first
  {
    FindFromSameRanges(a, b, first, last - first, 0);
    if last - first > 1 {
      var k := LargestPow2Lt(last - first);
      SameRangesSameUsed(a, b, first, first + k);
      SameRangesSameUsed(a, b, first + k, last);
    }
  }

  lemma {:induction false} SameRangesRebuilt(a: seq<Node>, b: seq<Node>, first: nat, last: nat)
    requires SameRanges(a, b) && first <= last
    ensures Reconstruct(first, last, a).Some? == Reconstruct(first, last, b).Some?
    decreases last - first
  {
    FindFromSameRanges(a, b, first, last - first, 0);
    if last - first > 1 {
      var k := LargestPow2Lt(last - first);
      SameRangesRebuilt(a, b, first, first + k);
      SameRangesRebuilt(a, b, first + k, last);
    }
  }

  lemma SameRangesSameReads(a: seq<Node>, b: seq<Node>, first: nat, last: nat)
    requires SameRanges(a, b) && first <= last
    ensures Used(first, last, a) == Used(first, last, b)
    ensures Reconstruct(first, last, a).Some? == Reconstruct(first, last, b).Some?
  {
    SameRangesSameUsed(a, b, first, last);
    SameRangesRebuilt(a, b, first, last);
  }

  // ---- Reads lie inside the range and do not overlap ----

  lemma {:induction false} UsedWithin(first: nat, last: nat, nodes: seq<Node>, i: nat)
    requires first < last && i in Used(first, last, nodes)
    ensures i < |nodes| && nodes[i].size > 0 && first <= nodes[i].start && nodes[i].start + nodes[i].size <= last
    decreases last - first
  {
    if Find(nodes, first, last - first).None? && last - first > 1 {
      var k := LargestPow2Lt(last - first);
      if i in Used(first, first + k, nodes) {
        UsedWithin(first, first + k, nodes, i);
      } else {
        UsedWithin(first + k, last, nodes, i);
      }
    }
  }

  lemma {:induction false} UsedDisjoint(first: nat, last: nat, nodes: seq<Node>, i: nat, j: nat)
    requires first < last && i in Used(first, last, nodes) && j in Used(first, last, nodes) && i != j
    ensures i < |nodes| && j < |nodes|
    ensures nodes[i].start + nodes[i].size <= nodes[j].start || nodes[j].start + nodes[j].size <= nodes[i].start
    decreases last - first
  {
    UsedWithin(first, last, nodes, i);
    UsedWithin(first, last, nodes, j);
    if Find(nodes, first, last - first).None? && last - first > 1 {
      var k := LargestPow2Lt(last - first);
      var left, right := Used(first, first + k, nodes), Used(first + k, last, nodes);
      if i in left && j in left {
        UsedDisjoint(first, first + k, nodes, i, j);
      } else if i in right && j in right {
        UsedDisjoint(first + k, last, nodes, i, j);
      } else if i in left {
        UsedWithin(first, first + k, nodes, i);
        UsedWithin(first + k, last, nodes, j);
      } else {
        UsedWithin(first, first + k, nodes, j);
        UsedWithin(first + k, last, nodes, i);
      }
    }
  }

  // ---- A reconstruction is right exactly when the nodes it reads are ----

  ghost predicate HonestAt(nodes: seq<Node>, read: set<nat>, leaves: seq<Digest>) {
    forall i :: i in read ==> i < |nodes| && HonestNode(nodes[i], leaves)
  }

  lemma {:induction false} RightRootRightNodes(first: nat, last: nat, nodes: seq<Node>, leaves: seq<Digest>)
    requires first < last <= |leaves|
    requires Reconstruct(first, last, nodes) == Some(SubtreeHash(leaves, first, last))
    ensures HonestAt(nodes, Used(first, last, nodes), leaves)
    decreases last - first
  {
    if Find(nodes, first, last - first).None? && last - first > 1 {
      var k := LargestPow2Lt(last - first);
      ReconstructSplit(first, last, nodes);
      RightRootRightNodes(first, first + k, nodes, leaves);
      RightRootRightNodes(first + k, last, nodes, leaves);
      UsedSplit(first, last, nodes);
    }
  }

  lemma {:induction false} RightNodesRightRoot(first: nat, last: nat, nodes: seq<Node>, leaves: seq<Digest>)
    requires first < last <= |leaves|
    requires Reconstruct(first, last, nodes).Some? && HonestAt(nodes, Used(first, last, nodes), leaves)
    ensures Reconstruct(first, last, nodes) == Some(SubtreeHash(leaves, first, last))
    decreases last - first
  {
    var found := Find(nodes, first, last - first);
    if found.Some? {
      assert found.value in Used(first, last, nodes);
    } else if last - first > 1 {
      var k := LargestPow2Lt(last - first);
      ReconstructSplit(first, last, nodes);
      UsedSplit(first, last, nodes);
      RightNodesRightRoot(first, first + k, nodes, leaves);
      RightNodesRightRoot(first + k, last, nodes, leaves);
    }
  }

  // ---- Anchored proofs are sound ----

  lemma ReadForNewIsUsed(m: nat, n: nat, nodes: seq<Node>, oldRoot: Digest)
    ensures ReadForNew(m, n, nodes) == Used(0, n, WithOldRoot(m, nodes, oldRoot))
  {
    SameRangesSameReads(WithOldRoot(m, nodes, Unhashed(0)), WithOldRoot(m, nodes, oldRoot), 0, n);
  }

  /** Against the root of a log, an anchored proof is accepted for no old root but that of the log's prefix. */
  lemma AnchoredOldRoot(oldRoot: Digest, next: seq<Digest>, proof: ConsistencyProof)
    requires 0 < proof.m < proof.n == |next| && Anchored(proof)
    requires VerifyConsistency(oldRoot, SubtreeHash(next, 0, proof.n), proof)
    ensures oldRoot == SubtreeHash(next, 0, proof.m)
  {
    var m, n, nodes := proof.m, proof.n, proof.nodes;
    var all := WithOldRoot(m, nodes, oldRoot);
    RightRootRightNodes(0, n, all, next);
    ReadForNewIsUsed(m, n, nodes, oldRoot);
    if IsPow2(m) {
      assert |nodes| in Used(0, n, all);
      assert all[|nodes|] == Node(0, m, oldRoot);
    } else {
      RightNodesRightRoot(0, m, nodes, next);
    }
  }

  /** An anchored proof accepted against the roots of two logs shows that the old one is a prefix of the new one. */
  lemma AnchoredProofIsSound(prev: seq<Digest>, next: seq<Digest>, proof: ConsistencyProof)
    requires 0 < proof.m < proof.n && |prev| == proof.m && |next| == proof.n
    requires Anchored(proof)
    requires VerifyConsistency(SubtreeHash(prev, 0, proof.m), SubtreeHash(next, 0, proof.n), proof)
    ensures prev == next[..proof.m]
  {
    AnchoredOldRoot(SubtreeHash(prev, 0, proof.m), next, proof);
    SubtreeHashInjective(prev, next, 0, proof.m);
  }

  // ---- Only anchored proofs are ----

  /** The node with the hash of its range in the given log. */
  ghost function Rehashed(node: Node, leaves: seq<Digest>): Node {
    if node.size > 0 && node.start + node.size <= |leaves|
    then node.(hash := SubtreeHash(leaves, node.start, node.start + node.size))
    else node
  }

  /** Nodes read for the new root get its hashes, the others those of the old log. */
  ghost function Mixed(nodes: seq<Node>, read: set<nat>, next: seq<Digest>, prev: seq<Digest>): (r: seq<Node>)
    ensures SameRanges(nodes, r)
  {
    seq(|nodes|, i requires 0 <= i < |nodes| => if i in read then Rehashed(nodes[i], next)
        else Rehashed(nodes[i], prev))
  }

  lemma RehashedIsHonest(node: Node, leaves: seq<Digest>)
    requires node.size > 0 && node.start + node.size <= |leaves|
    ensures HonestNode(Rehashed(node, leaves), leaves)
  {
  }

  lemma MixedIsHonest(nodes: seq<Node>, read: set<nat>, next: seq<Digest>, prev: seq<Digest>, i: nat)
    requires i < |nodes| && nodes[i].size > 0
    ensures i in read && nodes[i].start + nodes[i].size <= |next| ==>
            HonestNode(Mixed(nodes, read, next, prev)[i], next)
    ensures i !in read && nodes[i].start + nodes[i].size <= |prev| ==>
            HonestNode(Mixed(nodes, read, next, prev)[i], prev)
  {
    if nodes[i].start + nodes[i].size <= |next| {
      RehashedIsHonest(nodes[i], next);
    }
    if nodes[i].start + nodes[i].size <= |prev| {
      RehashedIsHonest(nodes[i], prev);
    }
  }

  lemma MixedMatchesNew(m: nat, n: nat, nodes: seq<Node>, prev: seq<Digest>, next: seq<Digest>, oldRoot: Digest)
    requires 0 < m < n && |prev| == m && |next| == n
    requires Reconstruct(0, n, WithOldRoot(m, nodes, Unhashed(0))).Some?
    requires IsPow2(m) ==> |nodes| !in ReadForNew(m, n, nodes)
    ensures Reconstruct(0, n, WithOldRoot(m, Mixed(nodes, ReadForNew(m, n, nodes), next, prev), oldRoot)) ==
            Some(SubtreeHash(next, 0, n))
  {
    var read := ReadForNew(m, n, nodes);
    var mixed := Mixed(nodes, read, next, prev);
    var before, after := WithOldRoot(m, nodes, Unhashed(0)), WithOldRoot(m, mixed, oldRoot);
    assert SameRanges(before, after);
    SameRangesSameReads(before, after, 0, n);
    forall i | i in read ensures i < |after| && HonestNode(after[i], next) {
      UsedWithin(0, n, before, i);
      MixedIsHonest(nodes, read, next, prev, i);
    }
    RightNodesRightRoot(0, n, after, next);
  }

  /** A log like the first m leaves of the given one, but for one leaf. */
  ghost function Altered(leaves: seq<Digest>, m: nat, p: nat, leaf: Digest): seq<Digest>
    requires p < m <= |leaves|
  {
    leaves[..m][p := leaf]
  }

  /** A node away from the altered leaf is honest for both logs. */
  lemma HonestForAltered(node: Node, leaves: seq<Digest>, m: nat, p: nat, leaf: Digest)
    requires p < m <= |leaves| && HonestNode(node, leaves) && node.start + node.size <= m
    requires p < node.start || node.start + node.size <= p
    ensures HonestNode(node, Altered(leaves, m, p, leaf))
  {
    SubtreeHashLocal(leaves, Altered(leaves, m, p, leaf), node.start, node.start + node.size);
  }

  lemma MixedMatchesOld(m: nat, n: nat, nodes: seq<Node>, next: seq<Digest>, leaf: Digest, bad: nat)
    requires 0 < m < n && |next| == n && !IsPow2(m)
    requires Reconstruct(0, m, nodes).Some?
    requires bad in Used(0, m, nodes) && bad !in ReadForNew(m, n, nodes)
    requires bad < |nodes| && nodes[bad].start < m
    ensures var prev := Altered(next, m, nodes[bad].start, leaf);
            Reconstruct(0, m, Mixed(nodes, ReadForNew(m, n, nodes), next, prev)) == Some(SubtreeHash(prev, 0, m))
  {
    var p, read := nodes[bad].start, ReadForNew(m, n, nodes);
    var prev := Altered(next, m, p, leaf);
    var mixed := Mixed(nodes, read, next, prev);
    SameRangesSameReads(nodes, mixed, 0, m);
    forall i | i in Used(0, m, nodes) ensures i < |mixed| && HonestNode(mixed[i], prev) {
      UsedWithin(0, m, nodes, i);
      MixedIsHonest(nodes, read, next, prev, i);
      if i in read {
        UsedDisjoint(0, m, nodes, i, bad);
        UsedWithin(0, m, nodes, bad);
        HonestForAltered(mixed[i], next, m, p, leaf);
      }
    }
    RightNodesRightRoot(0, m, mixed, prev);
  }

  /** The sizes and ranges of a proof, whatever its hashes. */
  ghost predicate SameShape(a: ConsistencyProof, b: ConsistencyProof) {
    a.m == b.m && a.n == b.n && SameRanges(a.nodes, b.nodes)
  }

  /** Both roots can be rebuilt from the ranges, so that some hashes might be accepted. */
  predicate CanBeAccepted(proof: ConsistencyProof) {
    var m, n, nodes := proof.m, proof.n, proof.nodes;
    if m == 0 then true
    else if m >= n then m == n && nodes == []
    else
      && (IsPow2(m) || Reconstruct(0, m, nodes).Some?)
      && Reconstruct(0, n, WithOldRoot(m, nodes, Unhashed(0))).Some?
  }

  lemma UnanchoredReads(proof: ConsistencyProof)
    returns (relabelled: ConsistencyProof, prev: seq<Digest>, next: seq<Digest>)
    requires 0 < proof.m < proof.n && CanBeAccepted(proof) && !Anchored(proof)
    ensures SameShape(proof, relabelled)
    ensures |prev| == proof.m && |next| == proof.n && AllLeaves(prev) && AllLeaves(next)
    ensures VerifyConsistency(SubtreeHash(prev, 0, proof.m), SubtreeHash(next, 0, proof.n), relabelled)
    ensures prev != next[..proof.m]
  {
    var m, n, nodes := proof.m, proof.n, proof.nodes;
    var read := ReadForNew(m, n, nodes);
    var bad :| bad in ReadForOld(m, nodes) && bad !in read;
    var p := 0;
    if !IsPow2(m) {
      UsedWithin(0, m, nodes, bad);
      p := nodes[bad].start;
    }
    next := seq(n, _ => LeafHash([0]));
    prev := Altered(next, m, p, LeafHash([1]));
    relabelled := ConsistencyProof(m, n, Mixed(nodes, read, next, prev));
    assert prev[p] != next[..m][p];
    MixedMatchesNew(m, n, nodes, prev, next, SubtreeHash(prev, 0, m));
    if !IsPow2(m) {
      MixedMatchesOld(m, n, nodes, next, LeafHash([1]), bad);
    }
  }

  /** Hashes with which the new root is rebuilt, if anything is. */
  lemma HashesForNew(n: nat, nodes: seq<Node>) returns (relabelled: seq<Node>, next: seq<Digest>)
    ensures SameRanges(nodes, relabelled) && next != [] && forall i :: 0 <= i < |next| ==> next[i] == LeafHash([0])
    ensures match Reconstruct(0, n, relabelled) case None => true case Some(r) => r == SubtreeHash(next, 0, |next|)
  {
    if n == 0 {
      next := [LeafHash([0])];
      relabelled := seq(|nodes|, i requires 0 <= i < |nodes| => nodes[i].(hash := LeafHash([0])));
    } else {
      next := seq(n, _ => LeafHash([0]));
      relabelled := seq(|nodes|, i requires 0 <= i < |nodes| => Rehashed(nodes[i], next));
      if Reconstruct(0, n, relabelled).Some? {
        forall i | i in Used(0, n, relabelled) ensures i < |relabelled| && HonestNode(relabelled[i], next) {
          UsedWithin(0, n, relabelled, i);
          RehashedIsHonest(nodes[i], next);
        }
        RightNodesRightRoot(0, n, relabelled, next);
      }
    }
  }

  /** With an old size of zero, whatever the ranges, some hashes are accepted between logs without a prefix. */
  lemma ZeroOldSize(proof: ConsistencyProof)
    returns (relabelled: ConsistencyProof, prev: seq<Digest>, next: seq<Digest>)
    requires proof.m == 0
    ensures SameShape(proof, relabelled)
    ensures prev != [] && next != [] && AllLeaves(prev) && AllLeaves(next) && !(prev <= next)
    ensures VerifyConsistency(SubtreeHash(prev, 0, |prev|), SubtreeHash(next, 0, |next|), relabelled)
  {
    var nodes;
    nodes, next := HashesForNew(proof.n, proof.nodes);
    prev := [LeafHash([1])];
    relabelled := ConsistencyProof(0, proof.n, nodes);
    assert prev[0] != next[0];
  }

  /**
    For any sizes and ranges that can be accepted but are not anchored, there are hashes for them and
    two logs, the old one not a prefix of the new one, between which the proof is accepted; with a
    stated old size that is not zero, even logs of the stated sizes.
   */
  lemma UnanchoredProofIsUnsound(proof: ConsistencyProof)
    returns (relabelled: ConsistencyProof, prev: seq<Digest>, next: seq<Digest>)
    requires CanBeAccepted(proof) && !Anchored(proof)
    ensures SameShape(proof, relabelled)
    ensures prev != [] && next != [] && AllLeaves(prev) && AllLeaves(next) && !(prev <= next)
    ensures proof.m > 0 ==> |prev| == proof.m && |next| == proof.n
    ensures VerifyConsistency(SubtreeHash(prev, 0, |prev|), SubtreeHash(next, 0, |next|), relabelled)
  {
    if proof.m == 0 {
      relabelled, prev, next := ZeroOldSize(proof);
    } else {
      relabelled, prev, next := UnanchoredReads(proof);
    }
  }

  lemma {:induction false} NothingRebuilt(first: nat, last: nat)
    requires first <= last
    ensures Reconstruct(first, last, []).None?
    decreases last - first
  {
    if last - first > 1 {
      NothingRebuilt(first, first + LargestPow2Lt(last - first));
    }
  }

  /** An old size of zero and no nodes: accepted between any two roots. */
  lemma ZeroOldSizeIsAccepted(n: nat, oldRoot: Digest, newRoot: Digest)
    ensures VerifyConsistency(oldRoot, newRoot, ConsistencyProof(0, n, []))
  {
    NothingRebuilt(0, n);
  }

  /** The smallest instance with an old size: one node over the whole new log, and the old root is never looked at. */
  lemma WholeRangeNodeIsAccepted(oldRoot: Digest, newRoot: Digest)
    ensures VerifyConsistency(oldRoot, newRoot, ConsistencyProof(1, 2, [Node(0, 2, newRoot)]))
  {
    var all := [Node(0, 2, newRoot)] + [Node(0, 1, oldRoot)];
    assert all[0] == Node(0, 2, newRoot);
    assert Find(all, 0, 2) == Some(0);
  }

  // ---- The log's own proofs are anchored ----

  /** Where the last subtree before the boundary begins. */
  ghost function FinalStart(m: nat, first: nat, last: nat): (x: nat)
    requires 0 < m <= last - first
    ensures first <= x < first + m
    decreases last - first
  {
    if m == last - first then first
    else
      var k := LargestPow2Lt(last - first);
      if m <= k then FinalStart(m, first, first + k) else FinalStart(m - k, first + k, last)
  }

  /** A node to one side of the boundary; the only one that ends at it starts at x. */
  ghost predicate ClearOf(node: Node, boundary: nat, x: nat) {
    node.start >= boundary || node.start + node.size < boundary
      || (node.start + node.size == boundary && node.start == x)
  }

  ghost predicate AllClear(nodes: seq<Node>, boundary: nat, x: nat) {
    forall i {:trigger ClearOf(nodes[i], boundary, x)} :: 0 <= i < |nodes| ==> ClearOf(nodes[i], boundary, x)
  }

  lemma AllClearAppend(nodes: seq<Node>, node: Node, boundary: nat, x: nat)
    requires AllClear(nodes, boundary, x) && ClearOf(node, boundary, x)
    ensures AllClear(nodes + [node], boundary, x)
  {
  }

  lemma {:induction false} SubproofAllClear(m: nat, first: nat, last: nat, known: bool, leaves: seq<Digest>)
    requires 0 < m <= last - first && last <= |leaves|
    ensures AllClear(Subproof(m, first, last, known, leaves), first + m, FinalStart(m, first, last))
    decreases last - first
  {
    var size := last - first;
    if m < size {
      var k := LargestPow2Lt(size);
      var x := FinalStart(m, first, last);
      if m <= k {
        SubproofAllClear(m, first, first + k, known, leaves);
        AllClearAppend(Subproof(m, first, first + k, known, leaves),
                       Node(first + k, size - k, SubtreeHash(leaves, first + k, last)), first + m, x);
      } else {
        SubproofAllClear(m - k, first + k, last, false, leaves);
        AllClearAppend(Subproof(m - k, first + k, last, false, leaves),
                       Node(first, k, SubtreeHash(leaves, first, first + k)), first + m, x);
      }
    }
  }

  lemma {:induction false} FinalStartOfPow2(m: nat, size: nat)
    requires 0 < m <= size && IsPow2(m)
    ensures FinalStart(m, 0, size) == 0
    decreases size
  {
    if m < size {
      var k := LargestPow2Lt(size);
      LargestIsPow2(size);
      if m > k {
        Pow2Unique(m, k);
      }
      FinalStartOfPow2(m, k);
    }
  }

  lemma {:induction false} FindFromAbsent(nodes: seq<Node>, first: nat, size: nat, i: nat)
    requires i <= |nodes| && forall j :: i <= j < |nodes| ==> !CoversRange(nodes[j], first, size)
    ensures FindFrom(nodes, first, size, i).None?
    decreases |nodes| - i
  {
    if i < |nodes| {
      FindFromAbsent(nodes, first, size, i + 1);
    }
  }

  lemma ClearFindsNothing(nodes: seq<Node>, boundary: nat, x: nat, first: nat, last: nat)
    requires AllClear(nodes, boundary, x) && first < boundary <= last
    requires boundary < last || first != x
    ensures Find(nodes, first, last - first).None?
  {
    forall j | 0 <= j < |nodes| ensures !CoversRange(nodes[j], first, last - first) {
      assert ClearOf(nodes[j], boundary, x);
    }
    FindFromAbsent(nodes, first, last - first, 0);
  }

  lemma ReadInHalves(first: nat, last: nat, nodes: seq<Node>, i: nat)
    requires last - first >= 2 && Find(nodes, first, last - first).None?
    ensures var k := LargestPow2Lt(last - first);
            i in Used(first, last, nodes) <==> i in Used(first, first + k, nodes) || i in Used(first + k, last, nodes)
  {
  }

  /**
    Clear of the boundary, a range across it is read in two halves, and so is a prefix that ends at it
    past the split.
   */
  lemma {:induction false} ClearReadsNestAt(m: nat, first: nat, last: nat, nodes: seq<Node>, x: nat, i: nat)
    requires 0 < m <= last - first && x == FinalStart(m, first, last) && AllClear(nodes, first + m, x)
    requires i in Used(first, first + m, nodes)
    ensures i in Used(first, last, nodes)
    decreases last - first, 1
  {
    if m < last - first {
      ClearFindsNothing(nodes, first + m, x, first, last);
      if m <= LargestPow2Lt(last - first) {
        ReadInHalves(first, last, nodes, i);
        ClearReadsNestAt(m, first, first + LargestPow2Lt(last - first), nodes, x, i);
      } else {
        ClearReadsNestRight(m, first, last, nodes, x, i);
      }
    }
  }

  lemma FinalStartRight(m: nat, first: nat, last: nat)
    requires 0 < m < last - first && m > LargestPow2Lt(last - first)
    ensures var k := LargestPow2Lt(last - first);
            FinalStart(m, first, last) == FinalStart(m - k, first + k, last) > first
  {
  }

  lemma {:induction false} ClearReadsNestRight(m: nat, first: nat, last: nat, nodes: seq<Node>, x: nat, i: nat)
    requires 0 < m < last - first && m > LargestPow2Lt(last - first) && Find(nodes, first, last - first).None?
    requires x == FinalStart(m, first, last) && AllClear(nodes, first + m, x)
    requires i in Used(first, first + m, nodes)
    ensures i in Used(first, last, nodes)
    decreases last - first, 0
  {
    var k := LargestPow2Lt(last - first);
    FinalStartRight(m, first, last);
    ClearFindsNothing(nodes, first + m, x, first, first + m);
    PrefixSplitsAlike(m, last - first);
    ReadInHalves(first, first + m, nodes, i);
    ReadInHalves(first, last, nodes, i);
    if i in Used(first + k, first + m, nodes) {
      ClearReadsNestAt(m - k, first + k, last, nodes, x, i);
    }
  }

  lemma ClearReadsNest(m: nat, first: nat, last: nat, nodes: seq<Node>, x: nat)
    requires 0 < m <= last - first && x == FinalStart(m, first, last) && AllClear(nodes, first + m, x)
    ensures Used(first, first + m, nodes) <= Used(first, last, nodes)
  {
    var part, whole := Used(first, first + m, nodes), Used(first, last, nodes);
    forall i | i in part ensures i in whole {
      ClearReadsNestAt(m, first, last, nodes, x, i);
    }
  }

  /** With a power-of-two boundary the proof consists of right siblings only. */
  lemma {:induction false} SubproofOfPow2(m: nat, size: nat, leaves: seq<Digest>)
    requires 0 < m <= size <= |leaves| && IsPow2(m)
    ensures forall i :: 0 <= i < |Subproof(m, 0, size, true, leaves)| ==>
            Subproof(m, 0, size, true, leaves)[i].start >= m
    decreases size
  {
    if m < size {
      var k := LargestPow2Lt(size);
      LargestIsPow2(size);
      if m > k {
        Pow2Unique(m, k);
      }
      SubproofOfPow2(m, k, leaves);
    }
  }

  lemma SuppliedNodeIsRead(m: nat, nodes: seq<Node>, node: Node)
    requires m > 0 && node.start == 0 && node.size == m && forall i :: 0 <= i < |nodes| ==> nodes[i].start >= m
    ensures Used(0, m, nodes + [node]) == {|nodes|}
  {
    var all := nodes + [node];
    FindFromPresent(all, 0, m, 0, |nodes|);
    var found := Find(all, 0, m);
    assert found.value == |nodes|;
  }

  lemma IssuedProofIsAnchored(leaves: seq<Digest>, m: nat)
    requires 0 < m < |leaves|
    ensures Anchored(BuildConsistency(leaves, m).value)
  {
    var n := |leaves|;
    var nodes := Subproof(m, 0, n, true, leaves);
    var x := FinalStart(m, 0, n);
    SubproofAllClear(m, 0, n, true, leaves);
    var all := WithOldRoot(m, nodes, Unhashed(0));
    if IsPow2(m) {
      FinalStartOfPow2(m, n);
      AllClearAppend(nodes, Node(0, m, Unhashed(0)), m, 0);
      SubproofOfPow2(m, n, leaves);
      SuppliedNodeIsRead(m, nodes, Node(0, m, Unhashed(0)));
    }
    ClearReadsNest(m, 0, n, all, x);
  }

  /** So a proof whose nodes cover the ranges of an issued one, whatever their hashes, is sound. */
  lemma WellShapedProofIsSound(prev: seq<Digest>, next: seq<Digest>, proof: ConsistencyProof)
    requires 0 < proof.m < proof.n && |prev| == proof.m && |next| == proof.n
    requires SameRanges(BuildConsistency(next, proof.m).value.nodes, proof.nodes)
    requires VerifyConsistency(SubtreeHash(prev, 0, proof.m), SubtreeHash(next, 0, proof.n), proof)
    ensures prev == next[..proof.m]
  {
    var m, n, issued := proof.m, proof.n, BuildConsistency(next, proof.m).value.nodes;
    IssuedProofIsAnchored(next, m);
    SameRangesSameReads(issued, proof.nodes, 0, m);
    var a, b := WithOldRoot(m, issued, Unhashed(0)), WithOldRoot(m, proof.nodes, Unhashed(0));
    assert SameRanges(a, b);
    SameRangesSameReads(a, b, 0, n);
    AnchoredProofIsSound(prev, next, proof);
  }

  // ---- Without trusting the sizes ----

  /** The hashes at the leaves of a digest, from left to right. */
  function LeavesOf(d: Digest): seq<Digest> {
    match d
    case NodeHash(l, r) => LeavesOf(l) + LeavesOf(r)
    case _ => [d]
  }

  lemma SubtreeSplit(leaves: seq<Digest>, first: nat, last: nat)
    requires first + 1 < last <= |leaves|
    ensures var k := LargestPow2Lt(last - first);
            LeavesOf(SubtreeHash(leaves, first, last)) ==
            LeavesOf(SubtreeHash(leaves, first, first + k)) + LeavesOf(SubtreeHash(leaves, first + k, last))
  {
  }

  lemma SliceSplit(leaves: seq<Digest>, first: nat, middle: nat, last: nat)
    requires first <= middle <= last <= |leaves|
    ensures leaves[first..last] == leaves[first..middle] + leaves[middle..last]
  {
  }

  lemma OneLeaf(leaves: seq<Digest>, first: nat)
    requires first < |leaves| && AllLeaves(leaves)
    ensures LeavesOf(SubtreeHash(leaves, first, first + 1)) == leaves[first..first + 1]
  {
    assert leaves[first].LeafHash?;
  }

  lemma LeavesJoin(leaves: seq<Digest>, first: nat, last: nat, k: nat, left: seq<Digest>, right: seq<Digest>)
    requires first + 1 < last <= |leaves| && k == LargestPow2Lt(last - first)
    requires LeavesOf(SubtreeHash(leaves, first, first + k)) == left
    requires LeavesOf(SubtreeHash(leaves, first + k, last)) == right
    ensures LeavesOf(SubtreeHash(leaves, first, last)) == left + right
  {
    SubtreeSplit(leaves, first, last);
  }

  ghost predicate HasLeaves(leaves: seq<Digest>, first: nat, last: nat)
    requires first < last <= |leaves|
  {
    LeavesOf(SubtreeHash(leaves, first, last)) == leaves[first..last]
  }

  lemma LeavesOfHalves(leaves: seq<Digest>, first: nat, last: nat, k: nat)
    requires first + 1 < last <= |leaves| && k == LargestPow2Lt(last - first)
    requires HasLeaves(leaves, first, first + k) && HasLeaves(leaves, first + k, last)
    ensures HasLeaves(leaves, first, last)
  {
    SliceSplit(leaves, first, first + k, last);
    LeavesJoin(leaves, first, last, k, leaves[first..first + k], leaves[first + k..last]);
  }

  lemma {:induction false} LeavesOfSubtree(leaves: seq<Digest>, first: nat, last: nat)
    requires first < last <= |leaves| && AllLeaves(leaves)
    ensures HasLeaves(leaves, first, last)
    decreases last - first
  {
    if last == first + 1 {
      OneLeaf(leaves, first);
    } else {
      var k := LargestPow2Lt(last - first);
      LeavesOfSubtree(leaves, first, first + k);
      LeavesOfSubtree(leaves, first + k, last);
      LeavesOfHalves(leaves, first, last, k);
    }
  }

  lemma LeavesOfRoot(leaves: seq<Digest>)
    requires leaves != [] && AllLeaves(leaves)
    ensures LeavesOf(SubtreeHash(leaves, 0, |leaves|)) == leaves
  {
    LeavesOfSubtree(leaves, 0, |leaves|);
    assert leaves[0..|leaves|] == leaves;
  }

  /** A prefix that is rebuilt only from nodes also read for the whole starts with the same leaf hashes as the whole. */
  lemma {:induction false} RebuiltPrefix(first: nat, last: nat, m: nat, nodes: seq<Node>)
    requires 0 < m <= last - first
    requires Reconstruct(first, last, nodes).Some? && Reconstruct(first, first + m, nodes).Some?
    requires Used(first, first + m, nodes) <= Used(first, last, nodes)
    ensures LeavesOf(Reconstruct(first, first + m, nodes).value) <= LeavesOf(Reconstruct(first, last, nodes).value)
    decreases last - first, 1
  {
    if m < last - first {
      WholeIsSplit(first, last, m, nodes);
      if m <= LargestPow2Lt(last - first) {
        RebuiltPrefixLeft(first, last, m, nodes);
      } else {
        RebuiltPrefixRight(first, last, m, nodes);
      }
    }
  }

  lemma {:induction false} RebuiltPrefixLeft(first: nat, last: nat, m: nat, nodes: seq<Node>)
    requires 0 < m < last - first && m <= LargestPow2Lt(last - first) && Find(nodes, first, last - first).None?
    requires Reconstruct(first, last, nodes).Some? && Reconstruct(first, first + m, nodes).Some?
    requires Used(first, first + m, nodes) <= Used(first, last, nodes)
    ensures LeavesOf(Reconstruct(first, first + m, nodes).value) <= LeavesOf(Reconstruct(first, last, nodes).value)
    decreases last - first, 0
  {
    RebuiltHalves(first, last, nodes);
    ReadsStayLeft(first, last, m, nodes);
    RebuiltPrefix(first, first + LargestPow2Lt(last - first), m, nodes);
  }

  lemma RightParts(first: nat, last: nat, m: nat, nodes: seq<Node>, k: nat)
    requires 0 < m < last - first && m > k == LargestPow2Lt(last - first) && Find(nodes, first, last - first).None?
    requires Reconstruct(first, last, nodes).Some? && Reconstruct(first, first + m, nodes).Some?
    requires Used(first, first + m, nodes) <= Used(first, last, nodes)
    ensures Find(nodes, first, m).None? && m - k > 0 && m >= 2 && LargestPow2Lt(m) == k
    ensures Used(first + k, first + m, nodes) <= Used(first + k, last, nodes)
  {
    PrefixIsSplit(first, last, m, nodes);
    PrefixSplitsAlike(m, last - first);
    ReadsStayRight(first, last, m, nodes);
  }

  lemma {:induction false} RebuiltPrefixRight(first: nat, last: nat, m: nat, nodes: seq<Node>)
    requires 0 < m < last - first && m > LargestPow2Lt(last - first) && Find(nodes, first, last - first).None?
    requires Reconstruct(first, last, nodes).Some? && Reconstruct(first, first + m, nodes).Some?
    requires Used(first, first + m, nodes) <= Used(first, last, nodes)
    ensures LeavesOf(Reconstruct(first, first + m, nodes).value) <= LeavesOf(Reconstruct(first, last, nodes).value)
    decreases last - first, 0
  {
    var k := LargestPow2Lt(last - first);
    RightParts(first, last, m, nodes, k);
    RebuiltSome(first, last, nodes);
    RebuiltSome(first, first + m, nodes);
    RebuiltPrefix(first + k, last, m - k, nodes);
    PrefixJoins(first, last, m, nodes, k);
  }

  lemma RebuiltSome(first: nat, last: nat, nodes: seq<Node>)
    requires last - first >= 2 && Find(nodes, first, last - first).None? && Reconstruct(first, last, nodes).Some?
    ensures Reconstruct(first + LargestPow2Lt(last - first), last, nodes).Some?
  {
  }

  lemma PrefixJoins(first: nat, last: nat, m: nat, nodes: seq<Node>, k: nat)
    requires 2 <= m < last - first && LargestPow2Lt(last - first) == LargestPow2Lt(m) == k
    requires Find(nodes, first, last - first).None? && Find(nodes, first, m).None?
    requires Reconstruct(first, last, nodes).Some? && Reconstruct(first, first + m, nodes).Some?
    requires Reconstruct(first + k, last, nodes).Some? && Reconstruct(first + k, first + m, nodes).Some?
    requires LeavesOf(Reconstruct(first + k, first + m, nodes).value) <=
             LeavesOf(Reconstruct(first + k, last, nodes).value)
    ensures LeavesOf(Reconstruct(first, first + m, nodes).value) <= LeavesOf(Reconstruct(first, last, nodes).value)
  {
    RebuiltHalves(first, last, nodes);
    RebuiltHalves(first, first + m, nodes);
    PrefixOfConcat(LeavesOf(Reconstruct(first, first + k, nodes).value),
                   LeavesOf(Reconstruct(first + k, first + m, nodes).value),
                   LeavesOf(Reconstruct(first + k, last, nodes).value));
  }

  lemma PrefixOfConcat(a: seq<Digest>, b: seq<Digest>, c: seq<Digest>)
    requires b <= c
    ensures a + b <= a + c
  {
  }

  lemma RebuiltHalves(first: nat, last: nat, nodes: seq<Node>)
    requires last - first >= 2 && Find(nodes, first, last - first).None? && Reconstruct(first, last, nodes).Some?
    ensures var k := LargestPow2Lt(last - first);
            && Reconstruct(first, first + k, nodes).Some? && Reconstruct(first + k, last, nodes).Some?
            && LeavesOf(Reconstruct(first, last, nodes).value) ==
               LeavesOf(Reconstruct(first, first + k, nodes).value) +
                 LeavesOf(Reconstruct(first + k, last, nodes).value)
  {
  }

  /** Something is read for whatever is rebuilt. */
  lemma {:induction false} SomethingRead(first: nat, last: nat, nodes: seq<Node>) returns (i: nat)
    requires first < last && Reconstruct(first, last, nodes).Some?
    ensures i in Used(first, last, nodes)
    decreases last - first
  {
    match Find(nodes, first, last - first)
    case Some(j) => i := j;
    case None =>
      i := SomethingRead(first, first + LargestPow2Lt(last - first), nodes);
  }

  /** A node over the whole range is not read for a shorter prefix, so the range is rebuilt from its halves. */
  lemma WholeIsSplit(first: nat, last: nat, m: nat, nodes: seq<Node>)
    requires 0 < m < last - first && Reconstruct(first, first + m, nodes).Some?
    requires Used(first, first + m, nodes) <= Used(first, last, nodes)
    ensures Find(nodes, first, last - first).None?
  {
    var i := SomethingRead(first, first + m, nodes);
    UsedWithin(first, first + m, nodes, i);
  }

  /** The halves of a range read nodes on their own side only. */
  lemma ReadOnSide(first: nat, last: nat, nodes: seq<Node>, i: nat)
    requires last - first >= 2 && Find(nodes, first, last - first).None? && i in Used(first, last, nodes)
    ensures var k := LargestPow2Lt(last - first);
            && i < |nodes|
            && (nodes[i].start < first + k ==>
                i in Used(first, first + k, nodes) && nodes[i].start + nodes[i].size <= first + k)
            && (nodes[i].start >= first + k ==> i in Used(first + k, last, nodes))
  {
    var k := LargestPow2Lt(last - first);
    UsedSplit(first, last, nodes);
    if i in Used(first, first + k, nodes) {
      UsedWithin(first, first + k, nodes, i);
    } else {
      UsedWithin(first + k, last, nodes, i);
    }
  }

  lemma ReadsStayLeft(first: nat, last: nat, m: nat, nodes: seq<Node>)
    requires last - first >= 2 && 0 < m <= LargestPow2Lt(last - first) && Find(nodes, first, last - first).None?
    requires Used(first, first + m, nodes) <= Used(first, last, nodes)
    ensures Used(first, first + m, nodes) <= Used(first, first + LargestPow2Lt(last - first), nodes)
  {
    var part, left := Used(first, first + m, nodes), Used(first, first + LargestPow2Lt(last - first), nodes);
    forall i | i in part ensures i in left {
      UsedWithin(first, first + m, nodes, i);
      ReadOnSide(first, last, nodes, i);
    }
  }

  /** Nor is a node over a prefix that reaches into the right half read for the whole. */
  lemma PrefixIsSplit(first: nat, last: nat, m: nat, nodes: seq<Node>)
    requires last - first >= 2 && LargestPow2Lt(last - first) < m < last - first
             && Find(nodes, first, last - first).None?
    requires Used(first, first + m, nodes) <= Used(first, last, nodes)
    ensures Find(nodes, first, m).None?
  {
    if Find(nodes, first, m).Some? {
      ReadOnSide(first, last, nodes, Find(nodes, first, m).value);
    }
  }

  lemma ReadsStayRight(first: nat, last: nat, m: nat, nodes: seq<Node>)
    requires last - first >= 2 && LargestPow2Lt(last - first) < m < last - first
             && Find(nodes, first, last - first).None?
    requires Find(nodes, first, m).None? && LargestPow2Lt(m) == LargestPow2Lt(last - first)
    requires Used(first, first + m, nodes) <= Used(first, last, nodes)
    ensures var k := LargestPow2Lt(last - first);
            Used(first + k, first + m, nodes) <= Used(first + k, last, nodes)
  {
    var k := LargestPow2Lt(last - first);
    UsedSplit(first, first + m, nodes);
    var part, right := Used(first + k, first + m, nodes), Used(first + k, last, nodes);
    forall i | i in part ensures i in right {
      UsedWithin(first + k, first + m, nodes, i);
      ReadOnSide(first, last, nodes, i);
    }
  }

  /** At a power of two the supplied node is the one found for the old range, if it is read at all. */
  lemma {:induction false} SuppliedIsFound(first: nat, last: nat, nodes: seq<Node>, i: nat)
    requires first < last && i in Used(first, last, nodes)
    ensures i < |nodes| && Find(nodes, nodes[i].start, nodes[i].size) == Some(i)
    decreases last - first
  {
    if Find(nodes, first, last - first).None? {
      var k := LargestPow2Lt(last - first);
      UsedSplit(first, last, nodes);
      if i in Used(first, first + k, nodes) {
        SuppliedIsFound(first, first + k, nodes, i);
      } else {
        SuppliedIsFound(first + k, last, nodes, i);
      }
    }
  }

  lemma OldRootIsRebuilt(m: nat, n: nat, nodes: seq<Node>, oldRoot: Digest)
    requires 0 < m < n && (IsPow2(m) || Reconstruct(0, m, nodes) == Some(oldRoot))
    requires ReadForOld(m, nodes) <= ReadForNew(m, n, nodes)
    ensures var all := WithOldRoot(m, nodes, oldRoot);
            Reconstruct(0, m, all) == Some(oldRoot) && Used(0, m, all) <= Used(0, n, all)
  {
    var all := WithOldRoot(m, nodes, oldRoot);
    ReadForNewIsUsed(m, n, nodes, oldRoot);
    if IsPow2(m) {
      SuppliedIsFound(0, n, all, |nodes|);
    }
  }

  lemma AcceptedLeaves(oldRoot: Digest, newRoot: Digest, proof: ConsistencyProof)
    requires 0 < proof.m < proof.n && Anchored(proof) && VerifyConsistency(oldRoot, newRoot, proof)
    ensures LeavesOf(oldRoot) <= LeavesOf(newRoot)
  {
    OldRootIsRebuilt(proof.m, proof.n, proof.nodes, oldRoot);
    RebuiltPrefix(0, proof.n, proof.m, WithOldRoot(proof.m, proof.nodes, oldRoot));
  }

  /**
    Whatever logs of leaf hashes the roots belong to, and of whatever lengths: an accepted proof that
    is anchored shows that the old log is a prefix of the new one.
   */
  lemma AcceptedShowsPrefix(prev: seq<Digest>, next: seq<Digest>, proof: ConsistencyProof)
    requires prev != [] && next != [] && AllLeaves(prev) && AllLeaves(next) && Anchored(proof)
    requires VerifyConsistency(SubtreeHash(prev, 0, |prev|), SubtreeHash(next, 0, |next|), proof)
    ensures prev <= next
  {
    LeavesOfRoot(prev);
    LeavesOfRoot(next);
    if proof.m < proof.n {
      AcceptedLeaves(SubtreeHash(prev, 0, |prev|), SubtreeHash(next, 0, |next|), proof);
    }
  }

  // ---- What is accepted ----

  /** At equal sizes: no nodes and equal roots. */
  lemma EqualSizes(n: nat, nodes: seq<Node>, oldRoot: Digest, newRoot: Digest)
    requires n > 0
    ensures VerifyConsistency(oldRoot, newRoot, ConsistencyProof(n, n, nodes)) <==> nodes == [] && oldRoot == newRoot
  {
  }

  /** An old size larger than the new one is never accepted. */
  lemma LargerOldSize(m: nat, n: nat, nodes: seq<Node>, oldRoot: Digest, newRoot: Digest)
    requires m > n
    ensures !VerifyConsistency(oldRoot, newRoot, ConsistencyProof(m, n, nodes))
  {
  }

  /** With an old size of zero a new root that is supplied is compared. */
  lemma ZeroOldSizeChecksNew(n: nat, hash: Digest, oldRoot: Digest, newRoot: Digest)
    ensures VerifyConsistency(oldRoot, newRoot, ConsistencyProof(0, n, [Node(0, n, hash)])) <==> newRoot == hash
  {
    assert Find([Node(0, n, hash)], 0, n) == Some(0);
  }

  /** The proof that the first m leaves are a prefix, at every size up to that of the log. */
  function ProofFor(leaves: seq<Digest>, m: nat): ConsistencyProof
    requires m <= |leaves|
  {
    if BuildConsistency(leaves, m).Some? then BuildConsistency(leaves, m).value
    else ConsistencyProof(m, |leaves|, [])
  }

  /**
    Between any old root and the root of the log: the proof for the first m leaves is accepted exactly
    if the old root is theirs. No nodes are needed, and the log issues none, for all its leaves.
   */
  lemma AcceptedExactly(leaves: seq<Digest>, m: nat, oldRoot: Digest)
    requires 0 < m <= |leaves|
    ensures BuildConsistency(leaves, m).Some? <==> m < |leaves|
    ensures VerifyConsistency(oldRoot, ForestRoot(leaves).value, ProofFor(leaves, m)) <==>
            oldRoot == ForestRoot(leaves[..m]).value
  {
    var proof, newRoot := ProofFor(leaves, m), ForestRoot(leaves).value;
    if m == |leaves| {
      assert leaves[..m] == leaves;
      EqualSizes(m, [], oldRoot, newRoot);
    } else {
      ConsistencyComplete(leaves, m);
      SubtreeHashLocal(leaves[..m], leaves, 0, m);
      IssuedProofIsAnchored(leaves, m);
      if VerifyConsistency(oldRoot, newRoot, proof) {
        AnchoredOldRoot(oldRoot, leaves, proof);
      }
    }
  }

  lemma RehashedAt(nodes: seq<Node>, filled: seq<Node>, leaves: seq<Digest>, first: nat, last: nat)
    requires first < last <= |leaves| && SameRanges(nodes, filled)
    requires forall i :: 0 <= i < |nodes| ==> filled[i] == Rehashed(nodes[i], leaves)
    ensures HonestAt(filled, Used(first, last, filled), leaves)
  {
    forall i | i in Used(first, last, filled) ensures i < |filled| && HonestNode(filled[i], leaves) {
      UsedWithin(first, last, filled, i);
      RehashedIsHonest(nodes[i], leaves);
    }
  }

  /** Sizes and ranges with both sizes proper, filled with the hashes of a log and its prefix. */
  lemma FilledIsAccepted(proof: ConsistencyProof, next: seq<Digest>) returns (filled: ConsistencyProof)
    requires 0 < proof.m < proof.n == |next| && CanBeAccepted(proof)
    ensures SameShape(proof, filled)
    ensures VerifyConsistency(SubtreeHash(next[..proof.m], 0, proof.m), SubtreeHash(next, 0, proof.n), filled)
  {
    var m, n, nodes := proof.m, proof.n, proof.nodes;
    var oldRoot := SubtreeHash(next[..m], 0, m);
    SubtreeHashLocal(next[..m], next, 0, m);
    var rehashed := seq(|nodes|, i requires 0 <= i < |nodes| => Rehashed(nodes[i], next));
    filled := ConsistencyProof(m, n, rehashed);
    ShapeDecides(proof, filled);
    var before, all := WithOldRoot(m, rehashed, Unhashed(0)), WithOldRoot(m, rehashed, oldRoot);
    assert SameRanges(before, all);
    SameRangesSameReads(before, all, 0, n);
    RehashedAt(WithOldRoot(m, nodes, Unhashed(0)), all, next, 0, n);
    RightNodesRightRoot(0, n, all, next);
    if !IsPow2(m) {
      RehashedAt(nodes, rehashed, next, 0, m);
      RightNodesRightRoot(0, m, rehashed, next);
    }
  }

  /** Whatever can be accepted is, with some hashes, between some two logs. */
  lemma AcceptedSomehow(proof: ConsistencyProof)
    returns (filled: ConsistencyProof, prev: seq<Digest>, next: seq<Digest>)
    requires CanBeAccepted(proof)
    ensures SameShape(proof, filled) && AcceptedBetween(filled, prev, next)
  {
    if proof.m == 0 {
      filled, prev, next := ZeroOldSize(proof);
    } else {
      next := seq(proof.n, _ => LeafHash([0]));
      prev := next[..proof.m];
      if proof.m == proof.n {
        filled := proof;
        assert prev == next;
      } else {
        filled := FilledIsAccepted(proof, next);
      }
    }
  }

  ghost predicate IsAcceptedSomehow(proof: ConsistencyProof) {
    exists filled, prev, next :: SameShape(proof, filled) && AcceptedBetween(filled, prev, next)
  }

  /** The sizes and ranges that can be accepted are exactly those that are accepted with some hashes. */
  lemma CanBeAcceptedIff(proof: ConsistencyProof)
    ensures CanBeAccepted(proof) <==> IsAcceptedSomehow(proof)
  {
    if CanBeAccepted(proof) {
      var filled, prev, next := AcceptedSomehow(proof);
    }
    if filled, prev, next :| SameShape(proof, filled) && AcceptedBetween(filled, prev, next) {
      ShapeDecides(proof, filled);
      OnlyWhatCanBe(filled, SubtreeHash(prev, 0, |prev|), SubtreeHash(next, 0, |next|));
    }
  }

  // ---- The exact condition ----

  ghost predicate AcceptedBetween(proof: ConsistencyProof, prev: seq<Digest>, next: seq<Digest>) {
    && prev != [] && next != [] && AllLeaves(prev) && AllLeaves(next)
    && VerifyConsistency(SubtreeHash(prev, 0, |prev|), SubtreeHash(next, 0, |next|), proof)
  }

  /** No hashes for these sizes and ranges are accepted unless the old log is a prefix of the new one. */
  ghost predicate ShowsPrefix(proof: ConsistencyProof) {
    forall filled, prev, next ::
      SameShape(proof, filled) && AcceptedBetween(filled, prev, next) ==> prev <= next
  }

  lemma ShapeDecides(a: ConsistencyProof, b: ConsistencyProof)
    requires SameShape(a, b)
    ensures Anchored(a) == Anchored(b) && CanBeAccepted(a) == CanBeAccepted(b)
  {
    var m, n := a.m, a.n;
    SameRangesSameReads(a.nodes, b.nodes, 0, m);
    var x, y := WithOldRoot(m, a.nodes, Unhashed(0)), WithOldRoot(m, b.nodes, Unhashed(0));
    assert SameRanges(x, y);
    SameRangesSameReads(x, y, 0, n);
  }

  lemma OnlyWhatCanBe(proof: ConsistencyProof, oldRoot: Digest, newRoot: Digest)
    requires VerifyConsistency(oldRoot, newRoot, proof)
    ensures CanBeAccepted(proof)
  {
    var m, n, nodes := proof.m, proof.n, proof.nodes;
    if 0 < m < n {
      var x, y := WithOldRoot(m, nodes, oldRoot), WithOldRoot(m, nodes, Unhashed(0));
      assert SameRanges(x, y);
      SameRangesSameReads(x, y, 0, n);
    }
  }

  /** Sizes and ranges that can be accepted at all show a prefix exactly when they are anchored. */
  lemma ShowsPrefixIff(proof: ConsistencyProof)
    ensures ShowsPrefix(proof) <==> (CanBeAccepted(proof) ==> Anchored(proof))
  {
    if CanBeAccepted(proof) && !Anchored(proof) {
      var filled, prev, next := UnanchoredProofIsUnsound(proof);
      assert SameShape(proof, filled) && AcceptedBetween(filled, prev, next);
    } else {
      forall filled, prev, next | SameShape(proof, filled) && AcceptedBetween(filled, prev, next) ensures prev <= next {
        ShapeDecides(proof, filled);
        OnlyWhatCanBe(filled, SubtreeHash(prev, 0, |prev|), SubtreeHash(next, 0, |next|));
        AcceptedShowsPrefix(prev, next, filled);
      }
    }
  }
}
