/** The nodes of a Merkle tree and the walks over them: the three depth-first
    orders, the breadth-first order, and the search for an inclusion proof.
    A node is never changed once built, so it is a value here. */
module MerkleNodes {
  import opened Results
  import opened PowersOfTwo
  import opened Utilities

  /** A node with its hash and its two children; Nil stands for null. */
  datatype Tree = Nil | Node(hash: string, left: Tree, right: Tree)

  /** The three depth-first orders. */
  datatype Order = Preorder | Inorder | Postorder

  /** The number of nodes. */
  function Size(t: Tree): nat
  {
    if t.Nil? then 0 else 1 + Size(t.left) + Size(t.right)
  }

  /** Every node's hash, once per node. */
  ghost function Hashes(t: Tree): multiset<string>
  {
    if t.Nil? then multiset{} else multiset{t.hash} + Hashes(t.left) + Hashes(t.right)
  }

  /** helperPreOrder: a node, then its left subtree, then its right one. */
  function PreOrder(t: Tree): (s: seq<string>)
    ensures |s| == Size(t) && multiset(s) == Hashes(t)
    ensures t.Node? ==> s[0] == t.hash
  {
    if t.Nil? then [] else [t.hash] + PreOrder(t.left) + PreOrder(t.right)
  }

  /** helperInOrder: the left subtree, then the node, then the right one. */
  function InOrder(t: Tree): (s: seq<string>)
    ensures |s| == Size(t) && multiset(s) == Hashes(t)
    ensures t.Node? ==> s[Size(t.left)] == t.hash
  {
    if t.Nil? then [] else InOrder(t.left) + [t.hash] + InOrder(t.right)
  }

  /** helperPostOrder: both subtrees, left first, then the node. */
  function PostOrder(t: Tree): (s: seq<string>)
    ensures |s| == Size(t) && multiset(s) == Hashes(t)
    ensures t.Node? ==> s[|s| - 1] == t.hash
  {
    if t.Nil? then [] else PostOrder(t.left) + PostOrder(t.right) + [t.hash]
  }

  /** The hashes of the childless nodes, left to right. */
  function Leaves(t: Tree): seq<string>
  {
    if t.Nil? then []
    else if t.left.Nil? && t.right.Nil? then [t.hash]
    else Leaves(t.left) + Leaves(t.right)
  }

  /** The number of nodes with a child. */
  function InnerCount(t: Tree): nat
  {
    if t.Nil? || (t.left.Nil? && t.right.Nil?) then 0
    else 1 + InnerCount(t.left) + InnerCount(t.right)
  }

  /** The hashes of the nodes with a child. */
  ghost function InnerHashes(t: Tree): set<string>
  {
    if t.Nil? || (t.left.Nil? && t.right.Nil?) then {}
    else {t.hash} + InnerHashes(t.left) + InnerHashes(t.right)
  }

  /** t is a perfect binary tree of height h: a childless node when h is 0,
      otherwise a node whose two children are perfect of height h - 1. */
  ghost predicate Perfect(t: Tree, h: nat)
  {
    t.Node? &&
    if h == 0 then t.left.Nil? && t.right.Nil?
    else t.left.Node? && t.right.Node? && Perfect(t.left, h - 1) && Perfect(t.right, h - 1)
  }

  /** Every node has no child or two. */
  ghost predicate Full(t: Tree)
  {
    t.Node? ==> (t.left.Nil? <==> t.right.Nil?) && Full(t.left) && Full(t.right)
  }

  /** Every node with two children carries the pair hash of their hashes,
      the left one first. */
  ghost predicate HashOk(sha: Sha256, t: Tree)
  {
    t.Node? ==>
      && (t.left.Node? && t.right.Node? ==> t.hash == Combine(sha, t.left.hash, t.right.hash))
      && HashOk(sha, t.left) && HashOk(sha, t.right)
  }

  /** A perfect tree of height h has 2^h leaves, 2^h - 1 inner nodes and
      2^(h+1) - 1 nodes, and each of its hashes is a leaf's or an inner
      node's. */
  lemma {:induction false} PerfectShape(t: Tree, h: nat)
    requires Perfect(t, h)
    ensures Full(t)
    ensures |Leaves(t)| == Pow2(h) && InnerCount(t) == Pow2(h) - 1 && Size(t) == 2 * Pow2(h) - 1
    ensures forall x :: x in Hashes(t) <==> x in Leaves(t) || x in InnerHashes(t)
  {
    if h > 0 {
      PerfectShape(t.left, h - 1);
      PerfectShape(t.right, h - 1);
    }
  }

  /** findProof: the sibling hashes met going up from a proper descendant of
      t whose hash is leafHash, or None when no proper descendant carries it.
      A parent's left child is tried before its right child and the left
      subtree before the right one; a null sibling is dereferenced. */
  function FindProof(t: Tree, leafHash: string): Result<Option<seq<string>>>
  {
    if t.Nil? then Ok(None)
    else if t.left.Node? && t.left.hash == leafHash then
      (if t.right.Nil? then Fail(NullDereference) else Ok(Some([t.right.hash])))
    else if t.right.Node? && t.right.hash == leafHash then
      (if t.left.Nil? then Fail(NullDereference) else Ok(Some([t.left.hash])))
    else
      match FindProof(t.left, leafHash)
      case Fail(f) => Fail(f)
      case Ok(Some(p)) =>
        if t.right.Nil? then Fail(NullDereference) else Ok(Some(p + [t.right.hash]))
      case Ok(None) =>
        match FindProof(t.right, leafHash)
        case Fail(f) => Fail(f)
        case Ok(Some(p)) =>
          if t.left.Nil? then Fail(NullDereference) else Ok(Some(p + [t.left.hash]))
        case Ok(None) => Ok(None)
  }

  /** When neither child carries leafHash, the search goes on in the left
      subtree and then in the right one. */
  lemma FindProofRecurse(t: Tree, leafHash: string)
    requires t.Node? && t.left.Node? && t.right.Node?
    requires t.left.hash != leafHash && t.right.hash != leafHash
    requires FindProof(t.left, leafHash).Ok? && FindProof(t.right, leafHash).Ok?
    ensures FindProof(t, leafHash).Ok?
    ensures FindProof(t, leafHash).value.Some? <==>
      FindProof(t.left, leafHash).value.Some? || FindProof(t.right, leafHash).value.Some?
  {
  }

  lemma HashesOfNode(t: Tree, x: string)
    requires t.Node?
    ensures x in Hashes(t) <==> x == t.hash || x in Hashes(t.left) || x in Hashes(t.right)
  {
  }

  /** On a tree whose nodes have no child or two the search never throws, and
      it finds a proof exactly when leafHash is the hash of a proper
      descendant. */
  lemma {:induction false} FindProofFindsDescendants(t: Tree, leafHash: string)
    requires Full(t)
    ensures FindProof(t, leafHash).Ok?
    ensures FindProof(t, leafHash).value.Some? <==>
      t.Node? && (leafHash in Hashes(t.left) || leafHash in Hashes(t.right))
  {
    if t.Node? {
      var l, r := t.left, t.right;
      if l.Nil? {
        assert FindProof(t, leafHash) == Ok(None);
      } else if l.hash == leafHash {
        assert FindProof(t, leafHash) == Ok(Some([r.hash]));
        HashesOfNode(l, leafHash);
      } else if r.hash == leafHash {
        assert FindProof(t, leafHash) == Ok(Some([l.hash]));
        HashesOfNode(r, leafHash);
      } else {
        FindProofFindsDescendants(l, leafHash);
        FindProofFindsDescendants(r, leafHash);
        FindProofRecurse(t, leafHash);
        HashesOfNode(l, leafHash);
        HashesOfNode(r, leafHash);
      }
    }
  }

  /** Folding a found proof from leafHash with the pair hash, the running hash
      always first, gives back the hash of t: the pair hash is symmetric, so
      the side a sibling sits on does not matter. */
  lemma {:induction false} FindProofSound(sha: Sha256, t: Tree, leafHash: string)
    requires HashOk(sha, t)
    requires FindProof(t, leafHash).Ok? && FindProof(t, leafHash).value.Some?
    ensures Fold(sha, leafHash, FindProof(t, leafHash).value.value) == t.hash
  {
    var l, r := t.left, t.right;
    if l.Node? && l.hash == leafHash {
    } else if r.Node? && r.hash == leafHash {
      CombineSymmetric(sha, leafHash, l.hash);
    } else if FindProof(l, leafHash).value.Some? {
      var p := FindProof(l, leafHash).value.value;
      FindProofSound(sha, l, leafHash);
      FoldAppend(sha, leafHash, p, r.hash);
    } else {
      var p := FindProof(r, leafHash).value.value;
      FindProofSound(sha, r, leafHash);
      FoldAppend(sha, leafHash, p, l.hash);
      CombineSymmetric(sha, r.hash, l.hash);
    }
  }

  /** The index of the first occurrence of x in s. */
  function FirstIndex<T(==)>(s: seq<T>, x: T): (i: nat)
    requires x in s
    ensures i < |s| && s[i] == x && x !in s[..i]
  {
    if s[0] == x then 0
    else
      var j := FirstIndex(s[1..], x);
      assert s[..j + 1] == [s[0]] + s[1..][..j];
      1 + j
  }

  lemma FirstIndexIs<T>(s: seq<T>, x: T, i: nat)
    requires i < |s| && s[i] == x && x !in s[..i]
    ensures FirstIndex(s, x) == i
  {
    var k := FirstIndex(s, x);
  }

  /** The first occurrence in a + b is in a when x occurs there, and in b
      otherwise. */
  lemma FirstIndexAppend<T>(a: seq<T>, b: seq<T>, x: T)
    requires x in a + b
    ensures x in a ==> FirstIndex(a + b, x) == FirstIndex(a, x)
    ensures x !in a ==> x in b && FirstIndex(a + b, x) == |a| + FirstIndex(b, x)
  {
    if x in a {
      var i := FirstIndex(a, x);
      assert (a + b)[..i] == a[..i];
      FirstIndexIs(a + b, x, i);
    } else {
      assert x in b;
      var j := FirstIndex(b, x);
      assert (a + b)[..|a| + j] == a + b[..j];
      FirstIndexIs(a + b, x, |a| + j);
    }
  }

  /** The hashes met going up from the i-th leaf of a perfect tree of height
      h to its root, one per level: the sibling of each node passed, the
      leaf's own sibling first. */
  ghost function Siblings(t: Tree, h: nat, i: nat): (p: seq<string>)
    requires Perfect(t, h) && i < |Leaves(t)|
    ensures |p| == h
  {
    if h == 0 then []
    else if i < |Leaves(t.left)| then Siblings(t.left, h - 1, i) + [t.right.hash]
    else Siblings(t.right, h - 1, i - |Leaves(t.left)|) + [t.left.hash]
  }

  /** Folding one more sibling into a running hash that has reached a child's
      hash reaches the parent's hash, whichever side the child is on. */
  lemma FoldStep(sha: Sha256, start: string, p: seq<string>, child: string, sibling: string, parent: string, childOnLeft: bool)
    requires Fold(sha, start, p) == child
    requires parent == if childOnLeft then Combine(sha, child, sibling) else Combine(sha, sibling, child)
    ensures Fold(sha, start, p + [sibling]) == parent
  {
    FoldAppend(sha, start, p, sibling);
    CombineSymmetric(sha, child, sibling);
  }

  /** One level of a sibling path: the leaf's index falls in the left or the
      right subtree, and the other subtree's root hash comes last. */
  lemma SiblingsUnfold(t: Tree, h: nat, i: nat)
    requires Perfect(t, h) && h > 0 && i < |Leaves(t)|
    ensures Leaves(t) == Leaves(t.left) + Leaves(t.right)
    ensures i < |Leaves(t.left)| ==>
      Leaves(t)[i] == Leaves(t.left)[i] &&
      Siblings(t, h, i) == Siblings(t.left, h - 1, i) + [t.right.hash]
    ensures i >= |Leaves(t.left)| ==>
      Leaves(t)[i] == Leaves(t.right)[i - |Leaves(t.left)|] &&
      Siblings(t, h, i) == Siblings(t.right, h - 1, i - |Leaves(t.left)|) + [t.left.hash]
  {
  }

  /** Folding the sibling path of the i-th leaf from that leaf's hash, the
      running hash always first, gives back the root's hash. */
  lemma {:induction false} SiblingsFold(sha: Sha256, t: Tree, h: nat, i: nat)
    requires Perfect(t, h) && HashOk(sha, t) && i < |Leaves(t)|
    ensures Fold(sha, Leaves(t)[i], Siblings(t, h, i)) == t.hash
  {
    if h > 0 {
      var l, r := t.left, t.right;
      SiblingsUnfold(t, h, i);
      PerfectHashOkChildren(sha, t, h);
      if i < |Leaves(l)| {
        SiblingsFold(sha, l, h - 1, i);
        FoldStep(sha, Leaves(l)[i], Siblings(l, h - 1, i), l.hash, r.hash, t.hash, true);
        FoldSame(sha, Leaves(t)[i], Siblings(t, h, i), Leaves(l)[i], Siblings(l, h - 1, i) + [r.hash], t.hash);
      } else {
        var j := i - |Leaves(l)|;
        SiblingsFold(sha, r, h - 1, j);
        FoldStep(sha, Leaves(r)[j], Siblings(r, h - 1, j), r.hash, l.hash, t.hash, false);
        FoldSame(sha, Leaves(t)[i], Siblings(t, h, i), Leaves(r)[j], Siblings(r, h - 1, j) + [l.hash], t.hash);
      }
    }
  }

  /** Below the root of a perfect, well-hashed tree of height h > 0 sit two
      perfect, well-hashed trees of height h - 1 whose pair hash is the
      root's. */
  lemma PerfectHashOkChildren(sha: Sha256, t: Tree, h: nat)
    requires Perfect(t, h) && HashOk(sha, t) && h > 0
    ensures Perfect(t.left, h - 1) && HashOk(sha, t.left)
    ensures Perfect(t.right, h - 1) && HashOk(sha, t.right)
    ensures t.hash == Combine(sha, t.left.hash, t.right.hash)
  {
  }

  /** Folds of equal starts over equal paths agree; stated apart so that
      the callers' proofs stay small. */
  lemma FoldSame(sha: Sha256, x: string, p: seq<string>, y: string, q: seq<string>, target: string)
    requires x == y && p == q && Fold(sha, y, q) == target
    ensures Fold(sha, x, p) == target
  {
  }

  /** When neither child carries leafHash, a proof found in the left subtree
      is extended with the right child's hash; failing that, one found in the
      right subtree is extended with the left child's hash. */
  lemma FindProofUp(t: Tree, leafHash: string)
    requires t.Node? && t.left.Node? && t.right.Node?
    requires t.left.hash != leafHash && t.right.hash != leafHash
    ensures (FindProof(t.left, leafHash).Ok? && FindProof(t.left, leafHash).value.Some?) ==>
      FindProof(t, leafHash) == Ok(Some(FindProof(t.left, leafHash).value.value + [t.right.hash]))
    ensures (FindProof(t.left, leafHash) == Ok(None) &&
      FindProof(t.right, leafHash).Ok? && FindProof(t.right, leafHash).value.Some?) ==>
      FindProof(t, leafHash) == Ok(Some(FindProof(t.right, leafHash).value.value + [t.left.hash]))
  {
  }

  /** A node whose two children are leaves: the proof of either leaf is the
      other leaf's hash. */
  lemma FindProofBottom(t: Tree, leafHash: string)
    requires Perfect(t, 1) && leafHash in Leaves(t)
    ensures FindProof(t, leafHash) == Ok(Some(Siblings(t, 1, FirstIndex(Leaves(t), leafHash))))
  {
    var l, r := t.left, t.right;
    assert Leaves(t) == [l.hash, r.hash];
    if l.hash == leafHash {
      assert FirstIndex(Leaves(t), leafHash) == 0;
      assert Siblings(t, 1, 0) == Siblings(l, 0, 0) + [r.hash] == [r.hash];
    } else {
      assert FirstIndex(Leaves(t), leafHash) == 1;
      assert Siblings(t, 1, 1) == Siblings(r, 0, 0) + [l.hash] == [l.hash];
    }
  }

  /** In a perfect tree of height at least 1, when leafHash is a leaf's hash
      and no inner node's, the search returns the sibling path of the first
      leaf carrying it, which has one entry per level. */
  lemma {:induction false} FindProofPath(t: Tree, h: nat, leafHash: string)
    requires Perfect(t, h) && h >= 1
    requires leafHash in Leaves(t) && leafHash !in InnerHashes(t)
    ensures FindProof(t, leafHash) == Ok(Some(Siblings(t, h, FirstIndex(Leaves(t), leafHash))))
    decreases h, 1
  {
    var l, r := t.left, t.right;
    var i := FirstIndex(Leaves(t), leafHash);
    SiblingsUnfold(t, h, i);
    FirstIndexAppend(Leaves(l), Leaves(r), leafHash);
    if h == 1 {
      FindProofBottom(t, leafHash);
    } else if leafHash in Leaves(l) {
      FindProofPathLeft(t, h, leafHash);
    } else {
      FindProofPathRight(t, h, leafHash);
    }
  }

  /** The leaf sits under the left child: its path there, then the right
      child's hash. */
  lemma {:induction false} FindProofPathLeft(t: Tree, h: nat, leafHash: string)
    requires Perfect(t, h) && h >= 2
    requires leafHash in Leaves(t.left) && leafHash !in InnerHashes(t)
    ensures FindProof(t, leafHash) ==
      Ok(Some(Siblings(t.left, h - 1, FirstIndex(Leaves(t.left), leafHash)) + [t.right.hash]))
    decreases h, 0
  {
    var l, r := t.left, t.right;
    assert InnerHashes(t) == {t.hash} + InnerHashes(l) + InnerHashes(r);
    assert l.hash in InnerHashes(l) && r.hash in InnerHashes(r);
    FindProofPath(l, h - 1, leafHash);
    FindProofUp(t, leafHash);
  }

  /** A hash carried by no node of a perfect tree is not found in it. */
  lemma FindProofMisses(t: Tree, h: nat, leafHash: string)
    requires Perfect(t, h)
    requires leafHash !in Leaves(t) && leafHash !in InnerHashes(t)
    ensures FindProof(t, leafHash) == Ok(None)
  {
    PerfectShape(t, h);
    HashesOfNode(t, leafHash);
    FindProofFindsDescendants(t, leafHash);
  }

  /** The leaf sits only under the right child: the left search finds
      nothing, so the result is its path there, then the left child's hash. */
  lemma {:induction false} FindProofPathRight(t: Tree, h: nat, leafHash: string)
    requires Perfect(t, h) && h >= 2
    requires leafHash !in Leaves(t.left) && leafHash in Leaves(t.right)
    requires leafHash !in InnerHashes(t)
    ensures FindProof(t, leafHash) ==
      Ok(Some(Siblings(t.right, h - 1, FirstIndex(Leaves(t.right), leafHash)) + [t.left.hash]))
    decreases h, 0
  {
    var l, r := t.left, t.right;
    assert InnerHashes(t) == {t.hash} + InnerHashes(l) + InnerHashes(r);
    assert l.hash in InnerHashes(l) && r.hash in InnerHashes(r);
    FindProofMisses(l, h - 1, leafHash);
    FindProofPath(r, h - 1, leafHash);
    FindProofUp(t, leafHash);
  }

  // The breadth-first order.

  /** Every entry of a work list is a node, not null. */
  predicate AllNodes(q: seq<Tree>)
  {
    forall i :: 0 <= i < |q| ==> q[i].Node?
  }

  /** The non-null children of t, left first: what breadthFirstTraversal
      queues after visiting t. */
  function Children(t: Tree): (c: seq<Tree>)
    ensures AllNodes(c)
  {
    if t.Nil? then []
    else (if t.left.Nil? then [] else [t.left]) + (if t.right.Nil? then [] else [t.right])
  }

  /** The children of every tree of the list, in list order. */
  function ChildrenOf(q: seq<Tree>): (c: seq<Tree>)
    ensures AllNodes(c)
  {
    if q == [] then [] else Children(q[0]) + ChildrenOf(q[1..])
  }

  /** The number of nodes in all trees of the list. */
  function QueueSize(q: seq<Tree>): nat
  {
    if q == [] then 0 else Size(q[0]) + QueueSize(q[1..])
  }

  /** The hashes of all trees of the list. */
  ghost function ForestHashes(q: seq<Tree>): multiset<string>
  {
    if q == [] then multiset{} else Hashes(q[0]) + ForestHashes(q[1..])
  }

  lemma {:induction false} QueueSizeAppend(a: seq<Tree>, b: seq<Tree>)
    ensures QueueSize(a + b) == QueueSize(a) + QueueSize(b)
  {
    if a != [] {
      assert (a + b)[0] == a[0] && (a + b)[1..] == a[1..] + b;
      QueueSizeAppend(a[1..], b);
    } else {
      assert a + b == b;
    }
  }

  lemma {:induction false} ForestHashesAppend(a: seq<Tree>, b: seq<Tree>)
    ensures ForestHashes(a + b) == ForestHashes(a) + ForestHashes(b)
  {
    if a != [] {
      assert (a + b)[0] == a[0] && (a + b)[1..] == a[1..] + b;
      ForestHashesAppend(a[1..], b);
    } else {
      assert a + b == b;
    }
  }

  lemma ForestOfOne(t: Tree)
    ensures QueueSize([t]) == Size(t) && ForestHashes([t]) == Hashes(t)
  {
    assert [t][1..] == [];
  }

  lemma ChildMeasure(c: Tree)
    ensures QueueSize(if c.Nil? then [] else [c]) == Size(c)
    ensures ForestHashes(if c.Nil? then [] else [c]) == Hashes(c)
  {
    if c.Node? {
      ForestOfOne(c);
    }
  }

  lemma ChildrenSize(t: Tree)
    requires t.Node?
    ensures QueueSize(Children(t)) == Size(t) - 1
  {
    var l, r := t.left, t.right;
    ChildMeasure(l);
    ChildMeasure(r);
    QueueSizeAppend(if l.Nil? then [] else [l], if r.Nil? then [] else [r]);
  }

  lemma ChildrenHashes(t: Tree)
    requires t.Node?
    ensures ForestHashes(Children(t)) + multiset{t.hash} == Hashes(t)
  {
    var l, r := t.left, t.right;
    ChildMeasure(l);
    ChildMeasure(r);
    ForestHashesAppend(if l.Nil? then [] else [l], if r.Nil? then [] else [r]);
  }

  /** The order in which breadthFirstTraversal lists hashes from a work list
      of nodes: the front's hash, then the order from the rest of the list
      with the front's children queued at the back. */
  function LevelOrder(q: seq<Tree>): (s: seq<string>)
    requires AllNodes(q)
    ensures |s| == QueueSize(q)
    decreases QueueSize(q)
  {
    if q == [] then []
    else
      QueueSizeAppend(q[1..], Children(q[0]));
      ChildrenSize(q[0]);
      [q[0].hash] + LevelOrder(q[1..] + Children(q[0]))
  }

  /** Breadth-first order lists every hash of the work list once. */
  lemma {:induction false} LevelOrderHashes(q: seq<Tree>)
    requires AllNodes(q)
    ensures multiset(LevelOrder(q)) == ForestHashes(q)
    decreases QueueSize(q)
  {
    if q != [] {
      var next := q[1..] + Children(q[0]);
      QueueSizeAppend(q[1..], Children(q[0]));
      ChildrenSize(q[0]);
      LevelOrderHashes(next);
      ForestHashesAppend(q[1..], Children(q[0]));
      ChildrenHashes(q[0]);
      assert LevelOrder(q) == [q[0].hash] + LevelOrder(next);
    }
  }

  /** The hashes at depth d of t, left to right. */
  function Level(t: Tree, d: nat): seq<string>
  {
    if t.Nil? then []
    else if d == 0 then [t.hash]
    else Level(t.left, d - 1) + Level(t.right, d - 1)
  }

  /** The hashes at depth d of every tree of the list, in list order. */
  function ForestLevel(q: seq<Tree>, d: nat): seq<string>
  {
    if q == [] then [] else Level(q[0], d) + ForestLevel(q[1..], d)
  }

  /** Depths 0 to k of the list, a whole level after another. */
  function Levels(q: seq<Tree>, k: nat): seq<string>
  {
    if k == 0 then ForestLevel(q, 0) else Levels(q, k - 1) + ForestLevel(q, k)
  }

  lemma {:induction false} ForestLevelAppend(a: seq<Tree>, b: seq<Tree>, d: nat)
    ensures ForestLevel(a + b, d) == ForestLevel(a, d) + ForestLevel(b, d)
  {
    if a != [] {
      assert (a + b)[0] == a[0] && (a + b)[1..] == a[1..] + b;
      ForestLevelAppend(a[1..], b, d);
      assert Level(a[0], d) + (ForestLevel(a[1..], d) + ForestLevel(b, d))
          == (Level(a[0], d) + ForestLevel(a[1..], d)) + ForestLevel(b, d);
    } else {
      assert a + b == b;
    }
  }

  /** Depth d of the children is depth d + 1 of the parents. */
  lemma {:induction false} ChildrenOfLevel(q: seq<Tree>, d: nat)
    ensures ForestLevel(ChildrenOf(q), d) == ForestLevel(q, d + 1)
  {
    if q != [] {
      var t := q[0];
      ChildrenOfLevel(q[1..], d);
      ForestLevelAppend(Children(t), ChildrenOf(q[1..]), d);
      if t.Node? {
        var l, r := t.left, t.right;
        var cl: seq<Tree> := if l.Nil? then [] else [l];
        var cr: seq<Tree> := if r.Nil? then [] else [r];
        ForestLevelAppend(cl, cr, d);
        assert ForestLevel(cl, d) == Level(l, d);
        assert ForestLevel(cr, d) == Level(r, d);
      }
    }
  }

  /** Stated apart, like the next one, so that the callers' proofs stay small. */
  lemma Associative<T>(a: seq<T>, b: seq<T>, c: seq<T>)
    ensures (a + b) + c == a + (b + c)
  {
  }

  lemma AllNodesAppend(a: seq<Tree>, b: seq<Tree>)
    requires AllNodes(a) && AllNodes(b)
    ensures AllNodes(a + b)
  {
  }

  /** One step of breadthFirstTraversal: the front is visited and its
      children are queued at the back. */
  lemma LevelOrderStep(q: seq<Tree>)
    requires AllNodes(q) && q != []
    ensures AllNodes(q[1..] + Children(q[0]))
    ensures LevelOrder(q) == [q[0].hash] + LevelOrder(q[1..] + Children(q[0]))
  {
    AllNodesAppend(q[1..], Children(q[0]));
  }

  /** Visiting the first trees of the work list lists their hashes and
      queues their children behind the rest. */
  lemma {:induction false} LevelOrderSplit(q: seq<Tree>, w: seq<Tree>)
    requires AllNodes(q) && AllNodes(w)
    ensures AllNodes(q + w) && AllNodes(w + ChildrenOf(q))
    ensures LevelOrder(q + w) == ForestLevel(q, 0) + LevelOrder(w + ChildrenOf(q))
  {
    AllNodesAppend(q, w);
    AllNodesAppend(w, ChildrenOf(q));
    if q == [] {
      assert q + w == w && w + ChildrenOf(q) == w;
    } else {
      var t := q[0];
      var w' := w + Children(t);
      AllNodesAppend(w, Children(t));
      assert (q + w)[0] == t && (q + w)[1..] + Children(t) == q[1..] + w';
      LevelOrderStep(q + w);
      LevelOrderSplit(q[1..], w');
      assert ChildrenOf(q) == Children(t) + ChildrenOf(q[1..]);
      Associative(w, Children(t), ChildrenOf(q[1..]));
      var rest := LevelOrder(w + ChildrenOf(q));
      assert ForestLevel(q, 0) == [t.hash] + ForestLevel(q[1..], 0);
      Associative([t.hash], ForestLevel(q[1..], 0), rest);
    }
  }

  /** On a work list of nodes, breadth-first order is the hashes of the
      list's own trees, in order, then the order of all their children. */
  lemma LevelOrderNext(q: seq<Tree>)
    requires AllNodes(q)
    ensures LevelOrder(q) == ForestLevel(q, 0) + LevelOrder(ChildrenOf(q))
  {
    LevelOrderSplit(q, []);
    assert q + [] == q && [] + ChildrenOf(q) == ChildrenOf(q);
  }

  /** Every tree of the list is perfect of height k. */
  ghost predicate PerfectForest(q: seq<Tree>, k: nat)
  {
    forall i :: 0 <= i < |q| ==> Perfect(q[i], k)
  }

  lemma PerfectForestNodes(q: seq<Tree>, k: nat)
    requires PerfectForest(q, k)
    ensures AllNodes(q)
  {
    forall i | 0 <= i < |q|
      ensures q[i].Node?
    {
      assert Perfect(q[i], k);
    }
  }

  lemma {:induction false} ChildrenOfPerfect(q: seq<Tree>, k: nat)
    requires PerfectForest(q, k)
    ensures k == 0 ==> ChildrenOf(q) == []
    ensures k > 0 ==> PerfectForest(ChildrenOf(q), k - 1)
  {
    if q != [] {
      assert PerfectForest(q[1..], k);
      ChildrenOfPerfect(q[1..], k);
      var t := q[0];
      assert Perfect(t, k);
      if k > 0 {
        assert Children(t) == [t.left, t.right];
        var c := ChildrenOf(q);
        assert c == [t.left, t.right] + ChildrenOf(q[1..]);
        forall i | 0 <= i < |c|
          ensures Perfect(c[i], k - 1)
        {
          if i >= 2 {
            assert c[i] == ChildrenOf(q[1..])[i - 2];
          }
        }
      }
    }
  }

  lemma {:induction false} LevelsShift(q: seq<Tree>, k: nat)
    requires k >= 1
    ensures ForestLevel(q, 0) + Levels(ChildrenOf(q), k - 1) == Levels(q, k)
  {
    ChildrenOfLevel(q, k - 1);
    if k > 1 {
      LevelsShift(q, k - 1);
      var c := ChildrenOf(q);
      assert Levels(c, k - 1) == Levels(c, k - 2) + ForestLevel(c, k - 1);
      assert ForestLevel(q, 0) + (Levels(c, k - 2) + ForestLevel(c, k - 1))
          == (ForestLevel(q, 0) + Levels(c, k - 2)) + ForestLevel(c, k - 1);
    }
  }

  /** On a list of perfect trees of height k the breadth-first order is
      depth 0 of every tree, then depth 1, and so on down to depth k. */
  lemma {:induction false} LevelOrderByLevels(q: seq<Tree>, k: nat)
    requires PerfectForest(q, k)
    ensures AllNodes(q) && LevelOrder(q) == Levels(q, k)
    decreases k
  {
    PerfectForestNodes(q, k);
    LevelOrderNext(q);
    ChildrenOfPerfect(q, k);
    if k > 0 {
      LevelOrderByLevels(ChildrenOf(q), k - 1);
      LevelsShift(q, k);
    }
  }

  /** Depth h of a perfect tree of height h is its leaves. */
  lemma {:induction false} DeepestLevel(t: Tree, h: nat)
    requires Perfect(t, h)
    ensures Level(t, h) == Leaves(t)
  {
    if h > 0 {
      DeepestLevel(t.left, h - 1);
      DeepestLevel(t.right, h - 1);
    }
  }

  /** breadthFirstTraversal over a perfect tree of height h: the root's hash
      first, then the tree level by level, left to right, so that the last
      2^h hashes are the leaves in order. */
  lemma BreadthFirstOfPerfect(t: Tree, h: nat, s: seq<string>)
    requires Perfect(t, h) && AllNodes([t]) && s == LevelOrder([t])
    ensures s == Levels([t], h) && s[0] == t.hash
    ensures |s| == Size(t) && Size(t) == 2 * Pow2(h) - 1
    ensures s[|s| - Pow2(h)..] == Leaves(t)
  {
    assert PerfectForest([t], h);
    ForestOfOne(t);
    LevelOrderByLevels([t], h);
    PerfectShape(t, h);
    DeepestLevel(t, h);
    assert ForestLevel([t], h) == Level(t, h);
  }
}
