/**
  The duplicate-last Merkle tree and its inclusion proofs (antiforgery/src/merkle.rs:1-212).

  Hashing is ideal: a digest is a leaf hash, a node hash or neither, so hashes collide only when
  their inputs agree and a leaf hash is never a node hash (the 0x00 and 0x01 prefixes).
 */
module MerkleTree {
  import opened Bits
  import opened Options
  import opened Powers

  datatype Digest =
    | LeafHash(data: seq<byte>)
    | NodeHash(left: Digest, right: Digest)
    | Unhashed(id: nat)

  /** Which side the sibling sits on. */
  datatype Side = Left | Right

  datatype Step = Step(sibling: Digest, side: Side)

  /** An inclusion proof, with the index it claims to be for. */
  datatype Proof = Proof(index: nat, steps: seq<Step>)

  datatype Tree = Tree(levels: seq<seq<Digest>>, leaves: seq<Digest>, count: nat)

  // ---- Building the levels ----

  function Padded(level: seq<Digest>): (p: seq<Digest>)
    requires level != []
    ensures |p| % 2 == 0 && |level| <= |p| <= |level| + 1
    ensures p[..|level|] == level && (forall i :: |level| <= i < |p| ==> p[i] == level[|level| - 1])
  {
    if |level| % 2 == 1 then level + [level[|level| - 1]] else level
  }

  /** The parents of a level. */
  function Up(level: seq<Digest>): (u: seq<Digest>)
    requires level != []
    ensures |u| == (|level| + 1) / 2
  {
    var p := Padded(level);
    seq(|p| / 2, i requires 0 <= i < |p| / 2 => NodeHash(p[2 * i], p[2 * i + 1]))
  }

  function Levels(level: seq<Digest>): (ls: seq<seq<Digest>>)
    requires level != []
    ensures ls != []
    decreases |level|
  {
    if |level| == 1 then [level] else [Padded(level)] + Levels(Up(level))
  }

  function Root(level: seq<Digest>): Digest
    requires level != []
    decreases |level|
  {
    if |level| == 1 then level[0] else Root(Up(level))
  }

  function LeafHashes(leaves: seq<seq<byte>>): (hs: seq<Digest>)
    ensures |hs| == |leaves| && forall i :: 0 <= i < |hs| ==> hs[i] == LeafHash(leaves[i])
  {
    seq(|leaves|, i requires 0 <= i < |leaves| => LeafHash(leaves[i]))
  }

  function TreeOf(leaves: seq<seq<byte>>): Tree {
    if leaves == [] then Tree([], [], 0) else Tree(Levels(LeafHashes(leaves)), LeafHashes(leaves), |leaves|)
  }

  method Pair(level: seq<Digest>) returns (next: seq<Digest>)
    requires level != [] && |level| % 2 == 0
    ensures next == Up(level)
  {
    next := [];
    for i := 0 to |level| / 2
      invariant |next| == i && forall j :: 0 <= j < i ==> next[j] == NodeHash(level[2 * j], level[2 * j + 1])
    {
      next := next + [NodeHash(level[2 * i], level[2 * i + 1])];
    }
  }

  method FromLeaves(leaves: seq<seq<byte>>) returns (t: Tree)
    ensures t == TreeOf(leaves)
  {
    if leaves == [] {
      return Tree([], [], 0);
    }
    var hashes := LeafHashes(leaves);
    var cur := hashes;
    var levels := [cur];
    ghost var done: seq<seq<Digest>> := [];
    while |cur| > 1
      invariant cur != [] && levels == done + [cur]
      invariant done + Levels(cur) == Levels(hashes)
      decreases |cur|
    {
      ghost var level := cur;
      if |cur| % 2 == 1 {
        var last := cur[|cur| - 1];
        cur := cur + [last];
        levels := levels[|levels| - 1 := cur];
      }
      MoveLevel(done, level);
      UpOfPadded(level);
      done := done + [cur];
      cur := Pair(cur);
      levels := levels + [cur];
    }
    return Tree(levels, hashes, |leaves|);
  }

  lemma {:induction false} MoveLevel(done: seq<seq<Digest>>, level: seq<Digest>)
    requires |level| > 1
    ensures done + Levels(level) == (done + [Padded(level)]) + Levels(Up(level))
  {
    assert Levels(level) == [Padded(level)] + Levels(Up(level));
  }

  lemma {:induction false} UpOfPadded(level: seq<Digest>)
    requires level != []
    ensures Up(level) == Up(Padded(level))
  {
    assert Padded(Padded(level)) == Padded(level);
  }

  lemma {:induction false} RootIsLastLevel(level: seq<Digest>)
    requires level != []
    ensures var ls := Levels(level); |ls[|ls| - 1]| == 1 && ls[|ls| - 1][0] == Root(level)
    decreases |level|
  {
    if |level| > 1 {
      RootIsLastLevel(Up(level));
    }
  }

  /** The first node of the last level, if any. */
  function TreeRoot(t: Tree): Option<Digest> {
    if t.levels == [] then None
    else
      var top := t.levels[|t.levels| - 1];
      if top == [] then None else Some(top[0])
  }

  lemma TreeRootIsRoot(leaves: seq<seq<byte>>)
    ensures TreeRoot(TreeOf(leaves)) == if leaves == [] then None else Some(Root(LeafHashes(leaves)))
  {
    if leaves != [] {
      RootIsLastLevel(LeafHashes(leaves));
    }
  }

  // ---- Inclusion proofs ----

  function Sibling(i: nat): nat {
    if i % 2 == 0 then i + 1 else i - 1
  }

  function ProofStep(padded: seq<Digest>, i: nat): Step
    requires i < |padded| && |padded| % 2 == 0
  {
    Step(padded[Sibling(i)], if i % 2 == 0 then Right else Left)
  }

  function ProofSteps(level: seq<Digest>, i: nat): seq<Step>
    requires i < |level|
    decreases |level|
  {
    if |level| == 1 then [] else [ProofStep(Padded(level), i)] + ProofSteps(Up(level), i / 2)
  }

  function Combine(node: Digest, step: Step): Digest {
    match step.side
    case Right => NodeHash(node, step.sibling)
    case Left => NodeHash(step.sibling, node)
  }

  /** The digest that a proof makes of a node. */
  function Fold(node: Digest, steps: seq<Step>): Digest
    decreases |steps|
  {
    if steps == [] then node else Fold(Combine(node, steps[0]), steps[1..])
  }

  /** At level `cur`, node idx: what is left of the levels, and what is left of the steps. */
  ghost predicate OnTheWay(levels: seq<seq<Digest>>, cur: seq<Digest>, idx: nat, steps: seq<Step>, all: seq<Step>) {
    idx < |cur| && levels == Levels(cur) && steps + ProofSteps(cur, idx) == all
  }

  lemma OneLevelUp(levels: seq<seq<Digest>>, cur: seq<Digest>, idx: nat, steps: seq<Step>, all: seq<Step>)
    requires OnTheWay(levels, cur, idx, steps, all) && |levels| > 1
    ensures |cur| > 1 && levels[0] == Padded(cur) && Sibling(idx) < |levels[0]|
    ensures OnTheWay(levels[1..], Up(cur), idx / 2, steps + [ProofStep(Padded(cur), idx)], all)
  {
    LevelsHead(cur, levels);
    MoveStep(steps, ProofStep(Padded(cur), idx), cur, idx);
    EvenOrOdd(idx);
  }

  lemma AtTheTop(levels: seq<seq<Digest>>, cur: seq<Digest>, idx: nat, steps: seq<Step>, all: seq<Step>)
    requires OnTheWay(levels, cur, idx, steps, all) && |levels| == 1
    ensures steps == all
  {
    LastLevelIsSingle(cur, levels);
    assert steps + [] == steps;
  }

  method BuildProof(leaves: seq<seq<byte>>, t: Tree, index: nat) returns (r: Option<Proof>)
    requires t == TreeOf(leaves)
    ensures r == if index < |leaves| then Some(Proof(index, ProofSteps(LeafHashes(leaves), index))) else None
  {
    if index >= t.count {
      return None;
    }
    var steps := CollectSteps(t.levels, LeafHashes(leaves), index);
    return Some(Proof(index, steps));
  }

  method CollectSteps(levels: seq<seq<Digest>>, ghost leaves: seq<Digest>, index: nat) returns (steps: seq<Step>)
    requires index < |leaves| && levels == Levels(leaves)
    ensures steps == ProofSteps(leaves, index)
  {
    steps := [];
    var idx := index;
    ghost var cur := leaves;
    ghost var all := ProofSteps(leaves, index);
    assert levels[0..] == levels && steps + all == all;
    for level := 0 to |levels| - 1
      invariant OnTheWay(levels[level..], cur, idx, steps, all)
    {
      OneLevelUp(levels[level..], cur, idx, steps, all);
      var lvl := levels[level];
      steps := steps + [Step(lvl[Sibling(idx)], if idx % 2 == 0 then Right else Left)];
      cur, idx := Up(cur), idx / 2;
      assert levels[level..][1..] == levels[level + 1..];
    }
    AtTheTop(levels[|levels| - 1..], cur, idx, steps, all);
  }

  lemma {:induction false} MoveStep(steps: seq<Step>, step: Step, level: seq<Digest>, i: nat)
    requires i < |level| && |level| > 1 && step == ProofStep(Padded(level), i)
    ensures steps + ProofSteps(level, i) == (steps + [step]) + ProofSteps(Up(level), i / 2)
  {
  }

  lemma LevelsHead(level: seq<Digest>, ls: seq<seq<Digest>>)
    requires level != [] && ls == Levels(level) && |ls| > 1
    ensures |level| > 1 && ls[0] == Padded(level) && ls[1..] == Levels(Up(level))
  {
  }

  lemma LastLevelIsSingle(level: seq<Digest>, ls: seq<seq<Digest>>)
    requires level != [] && ls == Levels(level) && |ls| == 1
    ensures |level| == 1
  {
  }

  /** The claimed index plays no part in verification. */
  method VerifyProof(root: Digest, data: seq<byte>, proof: Proof) returns (ok: bool)
    ensures ok <==> Fold(LeafHash(data), proof.steps) == root
  {
    var node, steps := LeafHash(data), proof.steps;
    for i := 0 to |steps|
      invariant Fold(node, steps[i..]) == Fold(LeafHash(data), steps)
    {
      assert steps[i..][1..] == steps[i + 1..];
      node := match steps[i].side
        case Right => NodeHash(node, steps[i].sibling)
        case Left => NodeHash(steps[i].sibling, node);
    }
    return node == root;
  }

  // ---- Every proof verifies, and has logarithmic length ----

  function Height(n: nat): nat
    requires n > 0
  {
    if n == 1 then 0 else 1 + Height((n + 1) / 2)
  }

  /** The height is the logarithm of the leaf count, rounded up. */
  lemma {:induction false} HeightIsCeilLog(n: nat)
    requires n > 0
    ensures n <= Pow2(Height(n)) && (n > 1 ==> Pow2(Height(n) - 1) < n)
  {
    if n > 1 {
      HeightIsCeilLog((n + 1) / 2);
    }
  }

  lemma ParentAt(level: seq<Digest>, c: nat)
    requires level != [] && c < (|level| + 1) / 2
    ensures 2 * c + 1 < |Padded(level)| && Up(level)[c] == NodeHash(Padded(level)[2 * c], Padded(level)[2 * c + 1])
  {
  }

  lemma PaddedAt(level: seq<Digest>, i: nat)
    requires level != [] && i < |Padded(level)|
    ensures Padded(level)[i] == level[if i < |level| then i else |level| - 1]
  {
    if i < |level| {
      assert Padded(level)[..|level|][i] == level[i];
    }
  }

  lemma EvenOrOdd(i: nat)
    ensures i == 2 * (i / 2) + i % 2 && (i % 2 == 0 ==> Sibling(i) == i + 1) && (i % 2 == 1 ==> Sibling(i) == i - 1)
  {
  }

  /** A node and its sibling make their parent. */
  lemma StepToParent(level: seq<Digest>, i: nat)
    requires |level| > 1 && i < |level|
    ensures Combine(level[i], ProofStep(Padded(level), i)) == Up(level)[i / 2]
  {
    ParentAt(level, i / 2);
    PaddedAt(level, i);
    EvenOrOdd(i);
  }

  lemma FoldFirst(node: Digest, step: Step, rest: seq<Step>)
    ensures Fold(node, [step] + rest) == Fold(Combine(node, step), rest)
  {
    assert ([step] + rest)[1..] == rest;
  }

  lemma {:induction false} ProofVerifies(level: seq<Digest>, i: nat)
    requires i < |level|
    ensures Fold(level[i], ProofSteps(level, i)) == Root(level)
    ensures |ProofSteps(level, i)| == Height(|level|)
    decreases |level|
  {
    if |level| > 1 {
      ProofVerifies(Up(level), i / 2);
      StepToParent(level, i);
      FoldFirst(level[i], ProofStep(Padded(level), i), ProofSteps(Up(level), i / 2));
    }
  }

  // ---- Accepted proofs are genuine ----

  /** The index the sides spell: a left sibling is a one bit, lowest first. */
  function Spelled(steps: seq<Step>): nat {
    if steps == [] then 0 else (if steps[0].side == Left then 1 else 0) + 2 * Spelled(steps[1..])
  }

  /** The descendant h levels below a digest, at position pos of the 2^h there are. */
  function Descendant(root: Digest, h: nat, pos: nat): Option<Digest> {
    if h == 0 then Some(root)
    else match Descendant(root, h - 1, pos / 2)
      case Some(NodeHash(l, r)) => Some(if pos % 2 == 0 then l else r)
      case _ => None
  }

  /** The leaf at position pos of the full tree over n leaves: past the end, a duplicate. */
  function Clamped(n: nat, pos: nat): (i: nat)
    requires n > 0
    ensures i < n
  {
    if n == 1 then 0
    else
      var c := 2 * Clamped((n + 1) / 2, pos / 2) + pos % 2;
      if c < n then c else n - 1
  }

  lemma {:induction false} ClampedInRange(n: nat, pos: nat)
    requires pos < n
    ensures Clamped(n, pos) == pos
  {
    if n > 1 {
      ClampedInRange((n + 1) / 2, pos / 2);
    }
  }

  /** The child that a position leads to is the leaf the position stands for, one level down. */
  lemma ChildAt(level: seq<Digest>, pos: nat, c: nat)
    requires |level| > 1 && c == Clamped((|level| + 1) / 2, pos / 2)
    ensures 2 * c + 1 < |Padded(level)|
    ensures Padded(level)[2 * c + pos % 2] == level[Clamped(|level|, pos)]
  {
    ParentAt(level, c);
    PaddedAt(level, 2 * c + pos % 2);
  }

  lemma DescendOnce(root: Digest, h: nat, pos: nat, l: Digest, r: Digest)
    requires h > 0 && Descendant(root, h - 1, pos / 2) == Some(NodeHash(l, r))
    ensures Descendant(root, h, pos) == Some(if pos % 2 == 0 then l else r)
  {
  }

  lemma Children(level: seq<Digest>, pos: nat) returns (l: Digest, r: Digest)
    requires |level| > 1
    ensures Up(level)[Clamped((|level| + 1) / 2, pos / 2)] == NodeHash(l, r)
    ensures (if pos % 2 == 0 then l else r) == level[Clamped(|level|, pos)]
  {
    var p, c := Padded(level), Clamped((|level| + 1) / 2, pos / 2);
    ParentAt(level, c);
    ChildAt(level, pos, c);
    l, r := p[2 * c], p[2 * c + 1];
  }

  lemma OneLevelDown(root: Digest, h: nat, pos: nat, level: seq<Digest>, parent: Digest)
    requires |level| > 1 && parent == Up(level)[Clamped((|level| + 1) / 2, pos / 2)]
    requires Descendant(root, h, pos / 2) == Some(parent)
    ensures Descendant(root, h + 1, pos) == Some(level[Clamped(|level|, pos)])
  {
    var l, r := Children(level, pos);
    DescendOnce(root, h + 1, pos, l, r);
  }

  ghost predicate LeadsDown(level: seq<Digest>, pos: nat)
    requires level != []
  {
    Descendant(Root(level), Height(|level|), pos) == Some(level[Clamped(|level|, pos)])
  }

  lemma LeadsFurther(level: seq<Digest>, pos: nat, up: seq<Digest>)
    requires |level| > 1 && up == Up(level) && LeadsDown(up, pos / 2)
    ensures LeadsDown(level, pos)
  {
    OneLevelDown(Root(up), Height(|up|), pos, level, up[Clamped(|up|, pos / 2)]);
  }

  lemma {:induction false} RootDescendants(level: seq<Digest>, pos: nat)
    requires level != []
    ensures LeadsDown(level, pos)
    decreases |level|
  {
    if |level| > 1 {
      var up := Up(level);
      RootDescendants(up, pos / 2);
      LeadsFurther(level, pos, up);
    }
  }

  /** What a proof folds up is found again by descending along its sides. */
  lemma {:induction false} FoldDescendant(node: Digest, steps: seq<Step>)
    ensures Descendant(Fold(node, steps), |steps|, Spelled(steps)) == Some(node)
    decreases |steps|
  {
    if steps != [] {
      var rest, root := steps[1..], Fold(node, steps);
      FoldDescendant(Combine(node, steps[0]), rest);
      SpelledHalves(steps);
      match steps[0].side {
        case Left => DescendOnce(root, |steps|, Spelled(steps), steps[0].sibling, node);
        case Right => DescendOnce(root, |steps|, Spelled(steps), node, steps[0].sibling);
      }
    }
  }

  lemma SpelledHalves(steps: seq<Step>)
    requires steps != []
    ensures Spelled(steps) / 2 == Spelled(steps[1..]) && (Spelled(steps) % 2 == 1 <==> steps[0].side == Left)
  {
  }

  /** Above the leaves every descendant is a node; below them there is none. */
  lemma {:induction false} DescendantKinds(level: seq<Digest>, h: nat, pos: nat)
    requires level != [] && forall i :: 0 <= i < |level| ==> level[i].LeafHash?
    ensures match Descendant(Root(level), h, pos)
            case Some(LeafHash(_)) => h == Height(|level|)
            case Some(NodeHash(_, _)) => h < Height(|level|)
            case Some(Unhashed(_)) => false
            case None => h > Height(|level|)
    decreases h
  {
    var top := Height(|level|);
    if h == top {
      RootDescendants(level, pos);
    } else if h > top {
      DescendantKinds(level, h - 1, pos / 2);
    } else {
      InnerDescendants(level, h, pos);
    }
  }

  lemma {:induction false} InnerDescendants(level: seq<Digest>, h: nat, pos: nat)
    requires level != [] && h < Height(|level|)
    ensures match Descendant(Root(level), h, pos) case Some(NodeHash(_, _)) => true case _ => false
    decreases |level|
  {
    var u := Up(level);
    if h == Height(|u|) {
      RootDescendants(u, pos);
      assert u[Clamped(|u|, pos)].NodeHash?;
    } else {
      InnerDescendants(Up(level), h, pos);
    }
  }

  lemma AcceptedLeaf(level: seq<Digest>, leaf: Digest, steps: seq<Step>)
    requires level != [] && (forall i :: 0 <= i < |level| ==> level[i].LeafHash?) && leaf.LeafHash?
    requires Fold(leaf, steps) == Root(level)
    ensures |steps| == Height(|level|) && leaf == level[Clamped(|level|, Spelled(steps))]
  {
    FoldDescendant(leaf, steps);
    DescendantKinds(level, |steps|, Spelled(steps));
    RootDescendants(level, Spelled(steps));
  }

  /**
    Soundness of inclusion: an accepted proof has exactly the height of the tree, and its data is
    the leaf at the position its sides spell; positions past the end are duplicates of real leaves.
   */
  lemma AcceptedProofIsGenuine(leaves: seq<seq<byte>>, data: seq<byte>, steps: seq<Step>)
    requires leaves != []
    requires Fold(LeafHash(data), steps) == Root(LeafHashes(leaves))
    ensures |steps| == Height(|leaves|)
    ensures data == leaves[Clamped(|leaves|, Spelled(steps))]
    ensures Spelled(steps) < |leaves| ==> data == leaves[Spelled(steps)]
  {
    AcceptedLeaf(LeafHashes(leaves), LeafHash(data), steps);
    if Spelled(steps) < |leaves| {
      ClampedInRange(|leaves|, Spelled(steps));
    }
  }

  /**
    Since the claimed index is not checked, an accepted proof need not be for the leaf it names
    (AnyIndexIsAccepted). It is exactly when the sides spell that index, up to duplication.
   */
  lemma ClaimedIndexIsRight(leaves: seq<seq<byte>>, data: seq<byte>, proof: Proof)
    requires leaves != [] && forall i, j :: 0 <= i < j < |leaves| ==> leaves[i] != leaves[j]
    requires Fold(LeafHash(data), proof.steps) == Root(LeafHashes(leaves))
    ensures proof.index < |leaves| && data == leaves[proof.index] <==>
            proof.index == Clamped(|leaves|, Spelled(proof.steps))
  {
    AcceptedProofIsGenuine(leaves, data, proof.steps);
  }

  lemma AnyIndexIsAccepted(x: seq<byte>, y: seq<byte>)
    requires x != y
    ensures var proof := Proof(1, [Step(LeafHash(y), Right)]);
            Fold(LeafHash(x), proof.steps) == Root(LeafHashes([x, y])) && x != [x, y][proof.index]
  {
    var level, steps := LeafHashes([x, y]), [Step(LeafHash(y), Right)];
    assert Padded(level) == level;
    assert Up(level) == [NodeHash(LeafHash(x), LeafHash(y))];
    assert steps[1..] == [];
  }

  // ---- What a root commits to ----

  lemma {:induction false} SameLeavesSameDescendants(a: Digest, b: Digest, h: nat)
    requires forall pos: nat :: Descendant(a, h, pos).Some? && Descendant(a, h, pos) == Descendant(b, h, pos)
    ensures a == b
  {
    if h == 0 {
      assert Descendant(a, 0, 0) == Descendant(b, 0, 0);
    } else {
      var g := h - 1;
      forall pos: nat ensures Descendant(a, g, pos).Some? && Descendant(a, g, pos) == Descendant(b, g, pos) {
        assert Descendant(a, h, 2 * pos).Some? && Descendant(a, h, 2 * pos + 1).Some?;
        assert Descendant(b, h, 2 * pos).Some? && Descendant(b, h, 2 * pos + 1).Some?;
        assert 2 * pos / 2 == pos && (2 * pos + 1) / 2 == pos;
      }
      SameLeavesSameDescendants(a, b, g);
    }
  }

  /** Two lists fill the full tree the same way. */
  ghost predicate SameExpansion(a: seq<seq<byte>>, b: seq<seq<byte>>)
    requires a != [] && b != []
  {
    Height(|a|) == Height(|b|) && forall pos: nat :: a[Clamped(|a|, pos)] == b[Clamped(|b|, pos)]
  }

  /** Two lists have the same root exactly when they fill the full tree the same way. */
  lemma EqualRoots(a: seq<seq<byte>>, b: seq<seq<byte>>)
    requires a != [] && b != []
    ensures Root(LeafHashes(a)) == Root(LeafHashes(b)) <==> SameExpansion(a, b)
  {
    var la, lb := LeafHashes(a), LeafHashes(b);
    var h := Height(|a|);
    if Root(la) == Root(lb) {
      RootDescendants(la, 0);
      DescendantKinds(lb, h, 0);
      forall pos: nat ensures a[Clamped(|a|, pos)] == b[Clamped(|b|, pos)] {
        RootDescendants(la, pos);
        RootDescendants(lb, pos);
      }
    }
    if SameExpansion(a, b) {
      forall pos: nat ensures Descendant(Root(la), h, pos).Some?
        && Descendant(Root(la), h, pos) == Descendant(Root(lb), h, pos) {
        RootDescendants(la, pos);
        RootDescendants(lb, pos);
      }
      SameLeavesSameDescendants(Root(la), Root(lb), h);
    }
  }

  /** At equal leaf counts, equal roots mean equal lists. */
  lemma EqualRootsEqualLists(a: seq<seq<byte>>, b: seq<seq<byte>>)
    requires a != [] && |a| == |b| && Root(LeafHashes(a)) == Root(LeafHashes(b))
    ensures a == b
  {
    EqualRoots(a, b);
    forall i | 0 <= i < |a| ensures a[i] == b[i] {
      ClampedInRange(|a|, i);
      assert a[Clamped(|a|, i)] == b[Clamped(|b|, i)];
    }
  }

  /** At different counts they need not be: the padding of one list can be the content of another. */
  lemma PaddingIsNotCommitted(x: seq<byte>, y: seq<byte>, z: seq<byte>)
    ensures Root(LeafHashes([x, y, z])) == Root(LeafHashes([x, y, z, z]))
  {
    var a, b := LeafHashes([x, y, z]), LeafHashes([x, y, z, z]);
    assert Padded(a) == b;
    assert Up(a) == Up(b);
  }
}
