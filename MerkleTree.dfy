/** The Merkle tree of one block: leaves are the digests of the block's
    transactions, padded with dummy leaves to a power of two of at least 2,
    then paired front to back through a work list until one node is left. */
module MerkleTrees {
  import opened Results
  import opened PowersOfTwo
  import opened Transactions
  import opened SinglyLinkedLists
  import opened Utilities
  import opened Blocks
  import opened MerkleNodes

  /** The preimage of every padding leaf. */
  const Dummy := "DUMMY"

  // The padded leaf count and the resulting height.

  /** The height powerOfTwo records for a list of n nodes, n >= 1:
      ceil(log2 n), but at least 1. */
  function PaddedHeight(n: nat): nat
  {
    Max(CeilLog2(n), 1)
  }

  /** The number of leaves after padding n of them. */
  function PaddedSize(n: nat): nat
  {
    Pow2(PaddedHeight(n))
  }

  /** The padded leaf count is the least power of two that is at least n
      and at least 2: one transaction gets one dummy leaf. */
  lemma PaddedSizeBounds(n: nat)
    requires n >= 1
    ensures n <= PaddedSize(n) && PaddedSize(n) >= 2 && IsPowerOfTwo(PaddedSize(n))
    ensures n >= 2 ==> PaddedSize(n) < 2 * n
    ensures n == 1 ==> PaddedSize(n) == 2
  {
    var c := CeilLog2(n);
    Pow2IsPowerOfTwo(PaddedHeight(n));
    Pow2Monotone(c, PaddedHeight(n));
    if n >= 2 {
      assert c >= 1;
      assert Pow2(c) == 2 * Pow2(c - 1);
    }
  }

  lemma {:induction false} CeilLog2OfPow2(k: nat)
    ensures CeilLog2(Pow2(k)) == k
  {
    var c := CeilLog2(Pow2(k));
    if c < k {
      Pow2Monotone(c, k - 1);
    } else if k < c {
      Pow2Monotone(k, c - 1);
    }
  }

  /** Padding stops exactly at the padded leaf count: between n and it, the
      only size powerOfTwo accepts is the padded leaf count itself, and there
      powerOfTwo records the padded height. */
  lemma PaddingStops(n: nat, m: nat)
    requires 1 <= n <= m <= PaddedSize(n)
    ensures m >= 2 && IsPowerOfTwo(m) <==> m == PaddedSize(n)
    ensures m == PaddedSize(n) ==> PaddedHeight(m) == PaddedHeight(n)
  {
    var h := PaddedHeight(n);
    Pow2IsPowerOfTwo(h);
    CeilLog2OfPow2(h);
    if m >= 2 && IsPowerOfTwo(m) {
      var k := Log2(m);
      if k < h {
        Pow2Monotone(k, h - 1);
      } else if h < k {
        Pow2Monotone(h + 1, k);
      }
    }
  }

  // The leaf list and the pairing of a work list.

  /** The digest of each transaction, in order. */
  function Digests(sha: Sha256, txs: seq<Transaction>): (hs: seq<string>)
    ensures |hs| == |txs|
  {
    if txs == [] then [] else [Digest(sha, ToString(txs[0]))] + Digests(sha, txs[1..])
  }

  /** n copies of the digest of the dummy leaf. */
  function Dummies(sha: Sha256, n: nat): (hs: seq<string>)
    ensures |hs| == n
  {
    if n == 0 then [] else [Digest(sha, Dummy)] + Dummies(sha, n - 1)
  }

  /** The leaf hashes of the tree of a block: the transactions' digests,
      then dummy digests up to the padded size. */
  function PaddedLeaves(sha: Sha256, txs: seq<Transaction>): (hs: seq<string>)
    ensures |hs| == PaddedSize(|txs|)
  {
    Pow2Monotone(CeilLog2(|txs|), PaddedHeight(|txs|));
    Digests(sha, txs) + Dummies(sha, PaddedSize(|txs|) - |txs|)
  }

  /** q holds childless nodes carrying the first |q| hashes of hs. */
  ghost predicate LeafPrefix(q: seq<Tree>, hs: seq<string>)
  {
    |q| <= |hs| && forall i :: 0 <= i < |q| ==> q[i] == Node(hs[i], Nil, Nil)
  }

  /** Appending the node of the next hash keeps the prefix property. */
  lemma LeafPrefixAppend(q: seq<Tree>, hs: seq<string>, x: Tree)
    requires LeafPrefix(q, hs) && |q| < |hs| && x == Node(hs[|q|], Nil, Nil)
    ensures LeafPrefix(q + [x], hs)
  {
    forall i | 0 <= i < |q + [x]|
      ensures (q + [x])[i] == Node(hs[i], Nil, Nil)
    {
      if i < |q| {
        assert (q + [x])[i] == q[i];
      }
    }
  }

  /** The parent makeTree builds over a and b. */
  function Parent(sha: Sha256, a: Tree, b: Tree): Tree
    requires a.Node? && b.Node?
  {
    Node(Combine(sha, a.hash, b.hash), a, b)
  }

  /** The root makeTree returns from a work list: while two or more nodes
      are left, the first two are replaced by their parent at the back. */
  function Build(sha: Sha256, q: seq<Tree>): (t: Tree)
    requires |q| >= 1 && AllNodes(q)
    ensures t.Node?
    decreases |q|
  {
    if |q| == 1 then q[0]
    else
      Build(sha, q[2..] + [Parent(sha, q[0], q[1])])
  }

  /** The parents of consecutive pairs of a, in order. */
  function Pair(sha: Sha256, a: seq<Tree>): (p: seq<Tree>)
    requires AllNodes(a)
    ensures AllNodes(p)
  {
    if |a| < 2 then [] else [Parent(sha, a[0], a[1])] + Pair(sha, a[2..])
  }

  /** Pairing halves an even-length list. */
  lemma {:induction false} PairLength(sha: Sha256, a: seq<Tree>, n: nat)
    requires |a| == 2 * n && AllNodes(a)
    ensures |Pair(sha, a)| == n
    decreases n
  {
    if n > 0 {
      PairLength(sha, a[2..], n - 1);
    }
  }

  /** The leaves of every tree of the list, in list order. */
  function ForestLeaves(q: seq<Tree>): seq<string>
  {
    if q == [] then [] else Leaves(q[0]) + ForestLeaves(q[1..])
  }

  /** Every tree of the list carries the pair hashes of its children. */
  ghost predicate HashOkForest(sha: Sha256, q: seq<Tree>)
  {
    forall i :: 0 <= i < |q| ==> HashOk(sha, q[i])
  }

  /** One makeTree step on a work list a + b with at least two nodes in a:
      the parent of a's front pair goes behind b. */
  lemma BuildStep(sha: Sha256, a: seq<Tree>, b: seq<Tree>) returns (a': seq<Tree>, b': seq<Tree>)
    requires |a| >= 2 && AllNodes(a) && AllNodes(b)
    ensures a' == a[2..] && b' == b + [Parent(sha, a[0], a[1])]
    ensures AllNodes(a + b) && AllNodes(a') && AllNodes(b') && |a' + b'| >= 1
    ensures Build(sha, a + b) == Build(sha, a' + b')
    ensures Pair(sha, a) == [Parent(sha, a[0], a[1])] + Pair(sha, a')
  {
    a', b' := a[2..], b + [Parent(sha, a[0], a[1])];
    AllNodesAppend(a, b);
    AllNodesAppend(b, [Parent(sha, a[0], a[1])]);
    assert (a + b)[2..] == a' + b;
    Associative(a', b, [Parent(sha, a[0], a[1])]);
  }

  /** Working through an even-length prefix a of the work list puts the
      parents of its pairs behind the rest. */
  lemma {:induction false} BuildRound(sha: Sha256, a: seq<Tree>, b: seq<Tree>, n: nat)
    requires |a| == 2 * n && AllNodes(a) && AllNodes(b) && |a| + |b| >= 1
    ensures AllNodes(a + b) && AllNodes(b + Pair(sha, a))
    ensures Build(sha, a + b) == Build(sha, b + Pair(sha, a))
    decreases n
  {
    AllNodesAppend(a, b);
    AllNodesAppend(b, Pair(sha, a));
    if n == 0 {
      assert a + b == b && b + Pair(sha, a) == b;
    } else {
      var a', b' := BuildStep(sha, a, b);
      var m := Shrink(a', n);
      BuildRound(sha, a', b', m);
      Associative(b, [Parent(sha, a[0], a[1])], Pair(sha, a'));
    }
  }

  /** The half-length of a list two shorter than one of length 2 * n. */
  lemma Shrink<T>(a: seq<T>, n: nat) returns (m: nat)
    requires n >= 1 && |a| == 2 * n - 2
    ensures |a| == 2 * m && m < n
  {
    m := n - 1;
  }

  /** A whole round of makeTree over an even-length work list leaves the
      parents of its pairs. */
  lemma BuildLevel(sha: Sha256, q: seq<Tree>, n: nat)
    requires |q| == 2 * n && n >= 1 && AllNodes(q)
    ensures Build(sha, q) == Build(sha, Pair(sha, q))
  {
    BuildRound(sha, q, [], n);
    assert q + [] == q;
    assert [] + Pair(sha, q) == Pair(sha, q);
  }

  /** Pairing keeps the leaves in order. */
  lemma {:induction false} PairLeaves(sha: Sha256, a: seq<Tree>, n: nat)
    requires |a| == 2 * n && AllNodes(a)
    ensures ForestLeaves(Pair(sha, a)) == ForestLeaves(a)
  {
    if n > 0 {
      var p := Parent(sha, a[0], a[1]);
      PairLeaves(sha, a[2..], n - 1);
      assert Pair(sha, a)[1..] == Pair(sha, a[2..]);
      assert Leaves(p) == Leaves(a[0]) + Leaves(a[1]);
      assert a[1..][0] == a[1] && a[1..][1..] == a[2..];
      Associative(Leaves(a[0]), Leaves(a[1]), ForestLeaves(a[2..]));
    }
  }

  /** Pairing perfect, well-hashed trees of height j gives perfect,
      well-hashed trees of height j + 1. */
  lemma {:induction false} PairPerfect(sha: Sha256, a: seq<Tree>, j: nat)
    requires AllNodes(a) && PerfectForest(a, j) && HashOkForest(sha, a)
    ensures PerfectForest(Pair(sha, a), j + 1) && HashOkForest(sha, Pair(sha, a))
  {
    if |a| >= 2 {
      var rest := a[2..];
      assert PerfectForest(rest, j) && HashOkForest(sha, rest) by {
        forall i | 0 <= i < |rest|
          ensures Perfect(rest[i], j) && HashOk(sha, rest[i])
        {
          assert rest[i] == a[i + 2];
        }
      }
      PairPerfect(sha, rest, j);
      var p := Parent(sha, a[0], a[1]);
      assert Perfect(a[0], j) && Perfect(a[1], j) && HashOk(sha, a[0]) && HashOk(sha, a[1]);
      var q := Pair(sha, a);
      assert q == [p] + Pair(sha, rest);
      forall i | 0 <= i < |q|
        ensures Perfect(q[i], j + 1) && HashOk(sha, q[i])
      {
        if i > 0 {
          assert q[i] == Pair(sha, rest)[i - 1];
        }
      }
    }
  }

  /** makeTree over 2^k perfect, well-hashed trees of height j builds a
      perfect, well-hashed tree of height h = j + k over their leaves. */
  lemma {:induction false} BuildPerfect(sha: Sha256, q: seq<Tree>, j: nat, k: nat, h: nat)
    requires |q| == Pow2(k) && j + k == h
    requires AllNodes(q) && PerfectForest(q, j) && HashOkForest(sha, q)
    ensures Perfect(Build(sha, q), h) && HashOk(sha, Build(sha, q))
    ensures Leaves(Build(sha, q)) == ForestLeaves(q)
    decreases k
  {
    if k == 0 {
      assert q[1..] == [];
      assert Perfect(q[0], j) && HashOk(sha, q[0]);
    } else {
      var p, j1, k1 := PairRound(sha, q, j, k);
      BuildPerfect(sha, p, j1, k1, h);
    }
  }

  /** The list one round of makeTree leaves behind a list of 2^k perfect,
      well-hashed trees of height j: 2^(k-1) such trees of height j + 1
      over the same leaves, from which the same root is built. */
  lemma PairRound(sha: Sha256, q: seq<Tree>, j: nat, k: nat) returns (p: seq<Tree>, j1: nat, k1: nat)
    requires |q| == Pow2(k) && k > 0
    requires AllNodes(q) && PerfectForest(q, j) && HashOkForest(sha, q)
    ensures j1 == j + 1 && k1 + 1 == k
    ensures |p| == Pow2(k1) && AllNodes(p) && PerfectForest(p, j1) && HashOkForest(sha, p)
    ensures ForestLeaves(p) == ForestLeaves(q) && |q| >= 1 && |p| >= 1
    ensures Build(sha, q) == Build(sha, p)
  {
    j1, k1 := j + 1, k - 1;
    var n := Pow2(k1);
    assert |q| == 2 * n;
    p := Pair(sha, q);
    PairLength(sha, q, n);
    BuildLevel(sha, q, n);
    PairPerfect(sha, q, j);
    PairLeaves(sha, q, n);
  }

  /** A list of childless nodes is a forest of well-hashed perfect trees of
      height 0 whose leaves are their hashes. */
  lemma {:induction false} LeafForest(sha: Sha256, q: seq<Tree>, hs: seq<string>)
    requires LeafPrefix(q, hs) && |q| == |hs|
    ensures AllNodes(q) && PerfectForest(q, 0) && HashOkForest(sha, q)
    ensures ForestLeaves(q) == hs
  {
    if q != [] {
      assert LeafPrefix(q[1..], hs[1..]) by {
        forall i | 0 <= i < |q[1..]|
          ensures q[1..][i] == Node(hs[1..][i], Nil, Nil)
        {
          assert q[1..][i] == q[i + 1];
        }
      }
      LeafForest(sha, q[1..], hs[1..]);
      assert Leaves(q[0]) == [hs[0]];
      assert hs == [hs[0]] + hs[1..];
      forall i | 0 <= i < |q|
        ensures q[i].Node? && Perfect(q[i], 0) && HashOk(sha, q[i])
      {
        assert q[i] == Node(hs[i], Nil, Nil);
      }
    }
  }

  /** makeTree over the padded leaf list of a non-empty block builds a
      perfect, well-hashed tree of the padded height over those leaves. */
  lemma BuildPadded(sha: Sha256, q: seq<Tree>, txs: seq<Transaction>)
    requires |txs| >= 1 && LeafPrefix(q, PaddedLeaves(sha, txs)) && |q| == PaddedSize(|txs|)
    ensures AllNodes(q)
    ensures Perfect(Build(sha, q), PaddedHeight(|txs|)) && HashOk(sha, Build(sha, q))
    ensures Leaves(Build(sha, q)) == PaddedLeaves(sha, txs)
  {
    LeafForest(sha, q, PaddedLeaves(sha, txs));
    BuildPerfect(sha, q, 0, PaddedHeight(|txs|), PaddedHeight(|txs|));
  }

  lemma {:induction false} DigestsAt(sha: Sha256, txs: seq<Transaction>, i: nat)
    requires i < |txs|
    ensures Digests(sha, txs)[i] == Digest(sha, ToString(txs[i]))
  {
    if i > 0 {
      DigestsAt(sha, txs[1..], i - 1);
    }
  }

  lemma {:induction false} DummiesAt(sha: Sha256, n: nat, i: nat)
    requires i < n
    ensures Dummies(sha, n)[i] == Digest(sha, Dummy)
  {
    if i > 0 {
      DummiesAt(sha, n - 1, i - 1);
    }
  }

  /** The leaf of a transaction is its digest. */
  lemma PaddedLeavesAreDigests(sha: Sha256, txs: seq<Transaction>, i: nat)
    requires i < |txs|
    ensures PaddedLeaves(sha, txs)[i] == Digest(sha, ToString(txs[i]))
  {
    DigestsAt(sha, txs, i);
  }

  /** Every padding leaf is the dummy digest. */
  lemma PaddedLeavesAreDummies(sha: Sha256, txs: seq<Transaction>, i: nat)
    requires |txs| <= i < PaddedSize(|txs|)
    ensures PaddedLeaves(sha, txs)[i] == Digest(sha, Dummy)
  {
    DummiesAt(sha, PaddedSize(|txs|) - |txs|, i - |txs|);
  }

  /** remove(0) on a list that is known to be non-empty. */
  method RemoveFront<T>(list: SinglyLinkedList<T>) returns (x: T)
    requires list.Valid() && |list.Contents| >= 1
    modifies list.Repr
    ensures list.Valid() && list.Repr <= old(list.Repr)
    ensures x == old(list.Contents)[0] && list.Contents == old(list.Contents)[1..]
  {
    ghost var s := list.Contents;
    var removed := list.Remove(0);
    assert s[..0] + s[1..] == s[1..];
    x := removed.value;
  }

  /** The loop of breadthFirstTraversal on a work list seeded with start:
      each dequeued node's hash is listed and its non-null children queued;
      a null start is dequeued and dereferenced. */
  method Drain(temp: SinglyLinkedList<Tree>, start: Tree) returns (r: Result<seq<string>>)
    requires temp.Valid() && temp.Contents == [start]
    modifies temp.Repr
    ensures start.Nil? ==> r == Fail(NullDereference)
    ensures start.Node? ==> r == Ok(LevelOrder([start]))
  {
    var result: seq<string> := [];
    while !temp.IsEmpty()
      invariant temp.Valid() && fresh(temp.Repr - old(temp.Repr))
      invariant start.Nil? ==> temp.Contents == [start] && result == []
      invariant start.Node? ==> AllNodes(temp.Contents) && result + LevelOrder(temp.Contents) == LevelOrder([start])
      decreases QueueSize(temp.Contents)
    {
      ghost var q := temp.Contents;
      var node := RemoveFront(temp);
      if node.Nil? {
        return Fail(NullDereference);
      }
      LevelOrderAdvance(result, q, LevelOrder([start]));
      result := result + [node.hash];
      EnqueueChildren(temp, node);
    }
    assert temp.Contents == [] && start.Node?;
    assert result == LevelOrder([start]);
    return Ok(result);
  }

  /** The children part of one breadth-first step: the non-null children of
      node are queued, left before right. */
  method EnqueueChildren(list: SinglyLinkedList<Tree>, node: Tree)
    requires list.Valid() && node.Node?
    modifies list.Repr
    ensures list.Valid() && fresh(list.Repr - old(list.Repr))
    ensures list.Contents == old(list.Contents) + Children(node)
  {
    if node.left.Node? {
      list.Add(node.left);
    }
    if node.right.Node? {
      list.Add(node.right);
    }
  }

  /** One breadth-first step keeps "listed so far, then the level order of
      the queue" equal to the whole level order, and shrinks the queue. */
  lemma LevelOrderAdvance(listed: seq<string>, q: seq<Tree>, whole: seq<string>)
    requires AllNodes(q) && q != [] && listed + LevelOrder(q) == whole
    ensures AllNodes(q[1..] + Children(q[0]))
    ensures (listed + [q[0].hash]) + LevelOrder(q[1..] + Children(q[0])) == whole
    ensures QueueSize(q[1..] + Children(q[0])) < QueueSize(q)
  {
    LevelOrderStep(q);
    QueueSizeAppend(q[1..], Children(q[0]));
    ChildrenSize(q[0]);
    Associative(listed, [q[0].hash], LevelOrder(q[1..] + Children(q[0])));
  }

  /** Appending x and dropping the front two; stated apart so that the
      callers' proofs stay small. */
  lemma DropTwo<T>(q: seq<T>, x: T)
    requires |q| >= 2
    ensures (q + [x])[1..][1..] == q[2..] + [x]
  {
  }

  class MerkleTree {
    const sha: Sha256
    var height: int
    var innerNodes: int
    var root: Tree

    /** An empty tree has a null root and zero height and inner nodes;
        otherwise the tree is perfect of height at least 1, every inner node
        carries the pair hash of its children, and innerNodes counts the
        inner nodes of a perfect tree of that height. */
    ghost predicate Valid()
      reads this
    {
      if root.Nil? then height == 0 && innerNodes == 0
      else height >= 1 && Perfect(root, height) && HashOk(sha, root) && innerNodes == Pow2(height) - 1
    }

    /** Builds the tree of block and writes its root hash into block; an
        empty block leaves the root null and the block untouched. */
    constructor (sha: Sha256, block: Block)
      requires block.Valid()
      modifies block
      ensures Valid() && this.sha == sha
      ensures block.Valid() && block.Repr == old(block.Repr) && block.Contents() == old(block.Contents())
      ensures old(block.Contents()) == [] ==>
        root == Nil && height == 0 && innerNodes == 0 && block.rootHash == old(block.rootHash)
      ensures old(block.Contents()) != [] ==>
        && root.Node?
        && Leaves(root) == PaddedLeaves(sha, old(block.Contents()))
        && height == PaddedHeight(|old(block.Contents())|)
        && innerNodes == PaddedSize(|old(block.Contents())|) - 1
        && block.rootHash == Some(root.hash)
    {
      this.sha := sha;
      height := 0;
      innerNodes := 0;
      root := Nil;
      new;
      ghost var txs := block.Contents();
      var transactions := block.Iterator();
      if !transactions.HasNext() {
        root := Nil;
      } else {
        Plant(transactions);
        assert block.Valid() && block.Contents() == txs;
        block.SetRootHash(Some(root.hash));
      }
    }

    /** The non-empty branch of the constructor: a leaf per transaction,
        dummy leaves up to a power of two, then the tree built over them. */
    method Plant(transactions: ListIterator<Transaction>)
      requires transactions.Valid() && transactions.Position == 0 && transactions.Elements != []
      requires innerNodes == 0
      modifies this, transactions
      ensures Valid() && root.Node?
      ensures Leaves(root) == PaddedLeaves(sha, transactions.Elements)
      ensures height == PaddedHeight(|transactions.Elements|)
      ensures innerNodes == PaddedSize(|transactions.Elements|) - 1
    {
      ghost var txs := transactions.Elements;
      var hashes := HashTransactions(transactions);
      Pad(hashes, txs);
      Finish(hashes, txs);
    }

    /** The makeTree call on the padded leaves, and what it builds. */
    method Finish(hashes: SinglyLinkedList<Tree>, ghost txs: seq<Transaction>)
      requires hashes.Valid() && this !in hashes.Repr && |txs| >= 1 && innerNodes == 0
      requires LeafPrefix(hashes.Contents, PaddedLeaves(sha, txs)) && |hashes.Contents| == PaddedSize(|txs|)
      requires height == PaddedHeight(|txs|)
      modifies this, hashes.Repr
      ensures Valid() && root.Node?
      ensures Leaves(root) == PaddedLeaves(sha, txs)
      ensures height == PaddedHeight(|txs|) && innerNodes == PaddedSize(|txs|) - 1
    {
      BuildPadded(sha, hashes.Contents, txs);
      PaddedSizeBounds(|txs|);
      root := MakeTree(hashes);
    }

    /** The first loop of the constructor: a childless node per transaction,
        holding its digest, in iteration order. */
    method HashTransactions(transactions: ListIterator<Transaction>) returns (hashes: SinglyLinkedList<Tree>)
      requires transactions.Valid() && transactions.Position == 0
      modifies transactions
      ensures hashes.Valid() && fresh(hashes.Repr)
      ensures LeafPrefix(hashes.Contents, PaddedLeaves(sha, transactions.Elements))
      ensures |hashes.Contents| == |transactions.Elements|
    {
      ghost var txs := transactions.Elements;
      ghost var hs := PaddedLeaves(sha, txs);
      if txs != [] {
        PaddedSizeBounds(|txs|);
      }
      hashes := new SinglyLinkedList();
      while transactions.HasNext()
        invariant transactions.Valid() && hashes.Valid() && fresh(hashes.Repr)
        invariant |hashes.Contents| == transactions.Position
        invariant LeafPrefix(hashes.Contents, hs)
        decreases |txs| - transactions.Position
      {
        PaddedLeavesAreDigests(sha, txs, transactions.Position);
        HashNext(transactions, hashes, hs);
      }
    }

    /** One pass of the first loop: the next transaction's digest, in a
        childless node, is appended to hashes. */
    method HashNext(transactions: ListIterator<Transaction>, hashes: SinglyLinkedList<Tree>, ghost hs: seq<string>)
      requires transactions.Valid() && transactions.HasNext() && hashes.Valid()
      requires forall o :: o in hashes.Repr ==> o != transactions && o !in transactions.Nodes
      requires |hashes.Contents| == transactions.Position && LeafPrefix(hashes.Contents, hs)
      requires transactions.Position < |hs|
      requires hs[transactions.Position] == Digest(sha, ToString(transactions.Elements[transactions.Position]))
      modifies transactions, hashes.Repr
      ensures transactions.Valid() && hashes.Valid() && fresh(hashes.Repr - old(hashes.Repr))
      ensures transactions.Position == old(transactions.Position) + 1
      ensures |hashes.Contents| == transactions.Position && LeafPrefix(hashes.Contents, hs)
    {
      assert hashes in hashes.Repr && transactions !in hashes.Repr;
      ghost var repr := hashes.Repr;
      var transaction := transactions.Next();
      assert hashes.Repr == repr;
      ghost var position := transactions.Position;
      AddLeaf(hashes, hs, ToString(transaction.value));
      assert transactions.Position == position;
    }

    /** The body of both loops of the constructor: the digest of input, in a
        childless node, is appended to hashes; it is the next leaf of hs. */
    method AddLeaf(hashes: SinglyLinkedList<Tree>, ghost hs: seq<string>, input: string)
      requires hashes.Valid() && LeafPrefix(hashes.Contents, hs)
      requires |hashes.Contents| < |hs| && hs[|hashes.Contents|] == Digest(sha, input)
      modifies hashes.Repr
      ensures hashes.Valid() && fresh(hashes.Repr - old(hashes.Repr))
      ensures hashes.Contents == old(hashes.Contents) + [Node(Digest(sha, input), Nil, Nil)]
      ensures LeafPrefix(hashes.Contents, hs)
    {
      var hash := CryptographicHash(sha, input);
      var node := Node(hash, Nil, Nil);
      ghost var before := hashes.Contents;
      hashes.Add(node);
      LeafPrefixAppend(before, hs, node);
    }

    /** The second loop of the constructor: dummy leaves are appended until
        powerOfTwo accepts the size, which leaves the padded height behind. */
    method Pad(hashes: SinglyLinkedList<Tree>, ghost txs: seq<Transaction>)
      requires hashes.Valid() && this !in hashes.Repr && |txs| >= 1
      requires LeafPrefix(hashes.Contents, PaddedLeaves(sha, txs)) && |hashes.Contents| == |txs|
      modifies this, hashes.Repr
      ensures hashes.Valid() && fresh(hashes.Repr - old(hashes.Repr)) && this !in hashes.Repr
      ensures LeafPrefix(hashes.Contents, PaddedLeaves(sha, txs)) && |hashes.Contents| == PaddedSize(|txs|)
      ensures height == PaddedHeight(|txs|) && root == old(root) && innerNodes == old(innerNodes)
    {
      ghost var n := |txs|;
      ghost var size := PaddedSize(n);
      ghost var hs := PaddedLeaves(sha, txs);
      PaddedSizeBounds(n);
      var done := PowerOfTwo(hashes.Size());
      PaddingStops(n, |hashes.Contents|);
      while !done
        invariant hashes.Valid() && fresh(hashes.Repr - old(hashes.Repr)) && this !in hashes.Repr
        invariant n <= |hashes.Contents| <= size
        invariant LeafPrefix(hashes.Contents, hs)
        invariant done <==> |hashes.Contents| == size
        invariant height == PaddedHeight(|hashes.Contents|)
        invariant root == old(root) && innerNodes == old(innerNodes)
        decreases size - |hashes.Contents|
      {
        PaddedLeavesAreDummies(sha, txs, |hashes.Contents|);
        done := PadNext(hashes, hs);
        PaddingStops(n, |hashes.Contents|);
      }
      PaddingStops(n, |hashes.Contents|);
    }

    /** One round of the padding loop: appends a dummy leaf, then asks
        powerOfTwo about the new size. */
    method PadNext(hashes: SinglyLinkedList<Tree>, ghost hs: seq<string>) returns (done: bool)
      requires hashes.Valid() && this !in hashes.Repr && LeafPrefix(hashes.Contents, hs)
      requires |hashes.Contents| < |hs| && hs[|hashes.Contents|] == Digest(sha, Dummy)
      modifies this, hashes.Repr
      ensures hashes.Valid() && fresh(hashes.Repr - old(hashes.Repr)) && this !in hashes.Repr
      ensures |hashes.Contents| == |old(hashes.Contents)| + 1 && LeafPrefix(hashes.Contents, hs)
      ensures done <==> |hashes.Contents| >= 2 && IsPowerOfTwo(|hashes.Contents|)
      ensures height == PaddedHeight(|hashes.Contents|)
      ensures root == old(root) && innerNodes == old(innerNodes)
    {
      AddLeaf(hashes, hs, Dummy);
      done := PowerOfTwo(hashes.Size());
    }

    /** powerOfTwo: records ceil(log2 size), at least 1, as the height and
        says whether 2 to that height is size; size 0 is refused without
        touching the height. */
    method PowerOfTwo(size: nat) returns (b: bool)
      modifies this
      ensures root == old(root) && innerNodes == old(innerNodes)
      ensures size == 0 ==> height == old(height)
      ensures size > 0 ==> height == PaddedHeight(size)
      ensures b <==> size >= 2 && IsPowerOfTwo(size)
    {
      if size == 0 {
        return false;
      }
      var a := Max(CeilLog2(size), 1);
      height := a;
      CeilLog2Exact(size);
      b := Pow2(a) == size;
    }

    /** makeTree: pairs the front two nodes of the work list into a parent
        appended at the back, once per inner node, until one node is left,
        and returns it. */
    method MakeTree(hashes: SinglyLinkedList<Tree>) returns (r: Tree)
      requires hashes.Valid() && this !in hashes.Repr
      requires |hashes.Contents| >= 1 && AllNodes(hashes.Contents)
      modifies this, hashes.Repr
      ensures hashes.Valid() && fresh(hashes.Repr - old(hashes.Repr)) && this !in hashes.Repr
      ensures r == Build(sha, old(hashes.Contents)) && hashes.Contents == [r]
      ensures innerNodes == old(innerNodes) + |old(hashes.Contents)| - 1
      ensures root == old(root) && height == old(height)
      decreases |hashes.Contents|
    {
      if hashes.Size() == 1 {
        var only := hashes.Get(0);
        assert hashes.Contents == [only.value];
        return only.value;
      }
      ghost var q := hashes.Contents;
      var parent := MergeFront(hashes);
      innerNodes := innerNodes + 1;
      AllNodesAppend(q[2..], [parent]);
      r := MakeTree(hashes);
    }

    /** The body of one makeTree call on a list of two or more nodes: the
        parent of the front two is appended and the two are removed. */
    method MergeFront(hashes: SinglyLinkedList<Tree>) returns (parent: Tree)
      requires hashes.Valid() && |hashes.Contents| >= 2 && AllNodes(hashes.Contents)
      modifies hashes.Repr
      ensures hashes.Valid() && fresh(hashes.Repr - old(hashes.Repr))
      ensures parent == Parent(sha, old(hashes.Contents)[0], old(hashes.Contents)[1])
      ensures hashes.Contents == old(hashes.Contents)[2..] + [parent]
    {
      ghost var q := hashes.Contents;
      var kid1Left := hashes.Get(0);
      var kid2Right := hashes.Get(1);
      var hash := CryptographicHashPair(sha, kid1Left.value.hash, kid2Right.value.hash);
      parent := Node(hash, kid1Left.value, kid2Right.value);
      hashes.Add(parent);
      var first := RemoveFront(hashes);
      var second := RemoveFront(hashes);
      DropTwo(q, parent);
    }

    /** height(): 0 for an empty tree, otherwise the number of levels below
        the root of a perfect tree with 2^height leaves. */
    function Height(): (h: int)
      requires Valid()
      reads this
      ensures root.Nil? ==> h == 0
      ensures root.Node? ==> h >= 1 && Perfect(root, h) && |Leaves(root)| == Pow2(h)
    {
      if root.Nil? then height else PerfectShape(root, height); height
    }

    /** innerNodes(): the number of nodes with children, one fewer than the
        number of leaves. */
    function InnerNodes(): (n: int)
      requires Valid()
      reads this
      ensures n == InnerCount(root)
      ensures root.Node? ==> n == |Leaves(root)| - 1
    {
      if root.Nil? then innerNodes else PerfectShape(root, height); innerNodes
    }

    /** breadthFirstTraversal: drains a work list seeded with the root,
        listing each node's hash and queueing its non-null children; a null
        root is dequeued and dereferenced. */
    method BreadthFirstTraversal() returns (r: Result<seq<string>>)
      requires Valid()
      ensures root.Nil? ==> r == Fail(NullDereference)
      ensures root.Node? ==> r == Ok(LevelOrder([root]))
      ensures root.Node? ==> r.value == Levels([root], height)
      ensures root.Node? ==> r.value[0] == root.hash && |r.value| == 2 * Pow2(height) - 1
      ensures root.Node? ==> r.value[|r.value| - Pow2(height)..] == Leaves(root)
    {
      var temp := new SinglyLinkedList<Tree>();
      var start := root;
      temp.Add(start);
      r := Drain(temp, start);
      if start.Node? {
        BreadthFirstOfPerfect(start, height, r.value);
      }
    }

    /** depthFirstTraversal: the chosen depth-first order; each lists every
        hash once, none for an empty tree, the same hashes as breadth-first
        order, pre-order starting and post-order ending with the root. */
    function DepthFirstTraversal(order: Order): (s: seq<string>)
      requires Valid()
      reads this
      ensures |s| == Size(root) && multiset(s) == Hashes(root)
      ensures root.Nil? ==> s == []
      ensures root.Node? ==> |s| == 2 * Pow2(height) - 1
      ensures root.Node? ==> multiset(s) == multiset(LevelOrder([root]))
      ensures root.Node? && order == Preorder ==> s[0] == root.hash
      ensures root.Node? && order == Postorder ==> s[|s| - 1] == root.hash
    {
      if root.Node? then
        PerfectShape(root, height);
        LevelOrderHashes([root]);
        ForestOfOne(root);
        Walk(order)
      else
        Walk(order)
    }

    /** helperFunction: dispatches on the order. */
    function Walk(order: Order): (s: seq<string>)
      reads this
      ensures |s| == Size(root) && multiset(s) == Hashes(root)
      ensures root.Node? && order == Preorder ==> s[0] == root.hash
      ensures root.Node? && order == Postorder ==> s[|s| - 1] == root.hash
    {
      match order
      case Preorder => PreOrder(root)
      case Inorder => InOrder(root)
      case Postorder => PostOrder(root)
    }

    /** extractProof: the proof findProof builds for t's digest, or an empty
        list when it finds none. On a built tree it never throws, and a
        non-empty proof folds from t's digest back to the root hash. */
    function ExtractProof(t: Transaction): (p: Result<seq<string>>)
      requires Valid()
      reads this
      ensures p.Ok?
      ensures p.value != [] ==> root.Node? && Fold(sha, Digest(sha, ToString(t)), p.value) == root.hash
    {
      var leafHash := Digest(sha, ToString(t));
      if root.Nil? then
        Ok([])
      else
        PerfectShape(root, height);
        FindProofFindsDescendants(root, leafHash);
        var found := FindProof(root, leafHash).value;
        if found.None? then
          Ok([])
        else
          FindProofSound(sha, root, leafHash);
          Ok(found.value)
    }

    /** For a transaction whose digest is a leaf's and no inner node's, the
        proof has one entry per level, the leaf's sibling first and the
        root's child last. */
    lemma ExtractProofOfLeaf(t: Transaction)
      requires Valid() && root.Node?
      requires Digest(sha, ToString(t)) in Leaves(root)
      requires Digest(sha, ToString(t)) !in InnerHashes(root)
      ensures ExtractProof(t) == Ok(Siblings(root, height, FirstIndex(Leaves(root), Digest(sha, ToString(t)))))
      ensures |ExtractProof(t).value| == height
    {
      FindProofPath(root, height, Digest(sha, ToString(t)));
    }

    /** A transaction whose digest no node carries gets an empty proof. */
    lemma ExtractProofOfAbsent(t: Transaction)
      requires Valid()
      requires Digest(sha, ToString(t)) !in Hashes(root)
      ensures ExtractProof(t) == Ok([])
    {
      if root.Node? {
        var leafHash := Digest(sha, ToString(t));
        PerfectShape(root, height);
        HashesOfNode(root, leafHash);
        FindProofFindsDescendants(root, leafHash);
      }
    }

    /** verifyTransaction accepts the extracted proof of a transaction in the
        tree against the root hash whenever the height is a power of two of
        at least 2. */
    lemma VerifiesIncluded(t: Transaction)
      requires Valid() && root.Node?
      requires Digest(sha, ToString(t)) in Leaves(root)
      requires Digest(sha, ToString(t)) !in InnerHashes(root)
      requires height >= 2 && IsPowerOfTwo(height)
      ensures Accepts(sha, t, Some(ExtractProof(t).value), Some(root.hash))
    {
      ExtractProofOfLeaf(t);
      GateMeaning(Some(ExtractProof(t).value), Some(root.hash));
      assert root.hash == Combine(sha, root.left.hash, root.right.hash);
    }

    /** verifyTransaction refuses the extracted proof of every leaf of a tree
        of height 1 or 3, correct as it is. */
    lemma RejectsShortTrees(t: Transaction)
      requires Valid() && root.Node?
      requires Digest(sha, ToString(t)) in Leaves(root)
      requires Digest(sha, ToString(t)) !in InnerHashes(root)
      requires height == 1 || height == 3
      ensures !Accepts(sha, t, Some(ExtractProof(t).value), Some(root.hash))
    {
      ExtractProofOfLeaf(t);
      GateRefusesShortTrees(sha, t, ExtractProof(t).value, Some(root.hash));
    }
  }
}
