/** The chain of blocks and its batching constructor: transactions are taken
    from the priority queue in dequeue order and a block is sealed as soon as
    its running fee total reaches the threshold. */
module Blockchains {
  import opened Results
  import opened Transactions
  import opened Blocks
  import opened PriorityLines

  /** The total fee of a run of transactions. */
  function FeeSum(s: seq<Transaction>): int
  {
    if s == [] then 0 else FeeSum(s[..|s| - 1]) + s[|s| - 1].fee
  }

  lemma FeeSumSnoc(s: seq<Transaction>, t: Transaction)
    ensures FeeSum(s + [t]) == FeeSum(s) + t.fee
  {
    assert (s + [t])[..|s|] == s;
  }

  /** The blocks the batching loop produces from txs, given the block under
      construction (current, whose fee total is sum). */
  function BatchFrom(txs: seq<Transaction>, threshold: int, current: seq<Transaction>, sum: int)
    : seq<seq<Transaction>>
    decreases |txs|
  {
    if txs == [] then
      (if sum > 0 then [current] else [])
    else
      var block, total := current + [txs[0]], sum + txs[0].fee;
      if total >= threshold then [block] + BatchFrom(txs[1..], threshold, [], 0)
      else BatchFrom(txs[1..], threshold, block, total)
  }

  /** The blocks of the chain built from txs, in order. */
  function Batch(txs: seq<Transaction>, threshold: int): seq<seq<Transaction>>
  {
    BatchFrom(txs, threshold, [], 0)
  }

  function Flatten(blocks: seq<seq<Transaction>>): seq<Transaction>
  {
    if blocks == [] then [] else blocks[0] + Flatten(blocks[1..])
  }

  /** A block under construction: every non-empty prefix is below the threshold. */
  ghost predicate Open(current: seq<Transaction>, threshold: int)
  {
    forall k :: 1 <= k <= |current| ==> FeeSum(current[..k]) < threshold
  }

  /** A block as the loop seals it: non-empty, and no proper non-empty prefix
      already reaches the threshold. */
  ghost predicate Minimal(block: seq<Transaction>, threshold: int)
  {
    block != [] && forall k :: 1 <= k < |block| ==> FeeSum(block[..k]) < threshold
  }

  lemma OpenSnoc(current: seq<Transaction>, t: Transaction, threshold: int)
    requires Open(current, threshold)
    ensures Minimal(current + [t], threshold)
    ensures FeeSum(current + [t]) < threshold ==> Open(current + [t], threshold)
  {
    var b := current + [t];
    forall k | 1 <= k < |b|
      ensures FeeSum(b[..k]) < threshold
    {
      assert b[..k] == current[..k];
    }
    assert b[..|b|] == b;
  }

  /** The shape of the blocks: each is Minimal; every block but the last
      reaches the threshold; the last one either reaches it or is a trailing
      block whose total lies strictly between 0 and the threshold. */
  lemma {:induction false} BatchFromShape(txs: seq<Transaction>, threshold: int, current: seq<Transaction>, sum: int)
    requires Open(current, threshold) && sum == FeeSum(current)
    ensures var bs := BatchFrom(txs, threshold, current, sum);
      && (forall i :: 0 <= i < |bs| ==> Minimal(bs[i], threshold))
      && (forall i :: 0 <= i < |bs| - 1 ==> FeeSum(bs[i]) >= threshold)
      && (bs != [] ==> FeeSum(bs[|bs| - 1]) >= threshold || 0 < FeeSum(bs[|bs| - 1]) < threshold)
    decreases |txs|
  {
    if txs == [] {
      if sum > 0 {
        assert current != [];
        assert current[..|current|] == current;
      }
    } else {
      var block, total := current + [txs[0]], sum + txs[0].fee;
      FeeSumSnoc(current, txs[0]);
      OpenSnoc(current, txs[0], threshold);
      if total >= threshold {
        assert Open([], threshold);
        BatchFromShape(txs[1..], threshold, [], 0);
      } else {
        BatchFromShape(txs[1..], threshold, block, total);
      }
    }
  }

  lemma BatchShape(txs: seq<Transaction>, threshold: int)
    ensures var bs := Batch(txs, threshold);
      && (forall i :: 0 <= i < |bs| ==> Minimal(bs[i], threshold))
      && (forall i :: 0 <= i < |bs| - 1 ==> FeeSum(bs[i]) >= threshold)
      && (bs != [] ==> FeeSum(bs[|bs| - 1]) >= threshold || 0 < FeeSum(bs[|bs| - 1]) < threshold)
  {
    assert Open([], threshold);
    BatchFromShape(txs, threshold, [], 0);
  }

  /** f covers all except for a trailing run whose fee total is not positive. */
  ghost predicate Covers(f: seq<Transaction>, all: seq<Transaction>)
  {
    |f| <= |all| && f == all[..|f|] && (|f| < |all| ==> FeeSum(all[|f|..]) <= 0)
  }

  /** One step of BatchFrom, with the blocks already sealed in front. */
  lemma BatchFromStep(txs: seq<Transaction>, threshold: int, current: seq<Transaction>, sum: int,
                      done: seq<seq<Transaction>>)
    requires txs != []
    ensures var block, total := current + [txs[0]], sum + txs[0].fee;
      done + BatchFrom(txs, threshold, current, sum) ==
        if total >= threshold then (done + [block]) + BatchFrom(txs[1..], threshold, [], 0)
        else done + BatchFrom(txs[1..], threshold, block, total)
  {
    var block := current + [txs[0]];
    assert done + ([block] + BatchFrom(txs[1..], threshold, [], 0))
      == (done + [block]) + BatchFrom(txs[1..], threshold, [], 0);
  }

  lemma CoversPrepend(block: seq<Transaction>, rest: seq<Transaction>, tail: seq<Transaction>)
    requires Covers(rest, tail)
    ensures Covers(block + rest, block + tail)
  {
    var f, all := block + rest, block + tail;
    assert all[..|f|] == f;
    assert all[|f|..] == tail[|rest|..];
  }

  /** The blocks, joined, are current followed by txs, except for a trailing
      run whose fee total is not positive, which is dropped. */
  lemma {:induction false} BatchFromCover(txs: seq<Transaction>, threshold: int, current: seq<Transaction>, sum: int)
    requires sum == FeeSum(current)
    ensures Covers(Flatten(BatchFrom(txs, threshold, current, sum)), current + txs)
    decreases |txs|
  {
    if txs == [] {
      assert current + txs == current;
      if sum > 0 {
        assert Flatten([current]) == current + Flatten([]);
        assert current[..|current|] == current;
      } else {
        assert current[0..] == current;
      }
    } else {
      var block, total := current + [txs[0]], sum + txs[0].fee;
      FeeSumSnoc(current, txs[0]);
      assert current + txs == block + txs[1..];
      if total >= threshold {
        BatchFromCover(txs[1..], threshold, [], 0);
        assert [] + txs[1..] == txs[1..];
        var rest := Flatten(BatchFrom(txs[1..], threshold, [], 0));
        assert Flatten([block] + BatchFrom(txs[1..], threshold, [], 0)) == block + rest;
        CoversPrepend(block, rest, txs[1..]);
      } else {
        BatchFromCover(txs[1..], threshold, block, total);
      }
    }
  }

  lemma BatchCover(txs: seq<Transaction>, threshold: int)
    ensures var f := Flatten(Batch(txs, threshold));
      |f| <= |txs| && f == txs[..|f|] && (|f| < |txs| ==> FeeSum(txs[|f|..]) <= 0)
  {
    BatchFromCover(txs, threshold, [], 0);
    assert [] + txs == txs;
  }

  /** When every fee is positive, nothing is dropped. */
  lemma {:induction false} PositiveSum(s: seq<Transaction>)
    requires s != [] && forall i :: 0 <= i < |s| ==> s[i].fee > 0
    ensures FeeSum(s) > 0
  {
    if |s| > 1 {
      PositiveSum(s[..|s| - 1]);
    }
  }

  lemma BatchKeepsAllWhenFeesPositive(txs: seq<Transaction>, threshold: int)
    requires forall i :: 0 <= i < |txs| ==> txs[i].fee > 0
    ensures Flatten(Batch(txs, threshold)) == txs
  {
    BatchCover(txs, threshold);
    var f := Flatten(Batch(txs, threshold));
    if |f| < |txs| {
      PositiveSum(txs[|f|..]);
    }
    assert txs[..|txs|] == txs;
  }

  /** When every fee alone reaches the threshold (as when the threshold is at
      most 0 and fees are non-negative), each transaction is its own block. */
  lemma {:induction false} BatchSingletons(txs: seq<Transaction>, threshold: int)
    requires forall i :: 0 <= i < |txs| ==> txs[i].fee >= threshold
    ensures Batch(txs, threshold) == seq(|txs|, i requires 0 <= i < |txs| => [txs[i]])
    decreases |txs|
  {
    if txs != [] {
      BatchSingletons(txs[1..], threshold);
      assert [] + [txs[0]] == [txs[0]];
    }
  }

  /** One step of the constructor's loop: the highest-fee transaction moves
      from the queue to the end of the block being filled. */
  method Take(queue: PriorityLine, block: Block) returns (t: Transaction)
    requires queue.Valid() && block.Valid() && queue.Repr !! block.Repr
    requires queue.Contents() != []
    modifies queue.Repr, block.Repr
    ensures queue.Valid() && queue.Repr <= old(queue.Repr)
    ensures block.Valid() && fresh(block.Repr - old(block.Repr))
    ensures t == old(queue.Contents())[0] && queue.Contents() == old(queue.Contents())[1..]
    ensures block.Contents() == old(block.Contents()) + [t] && block.rootHash == old(block.rootHash)
  {
    var r := queue.Dequeue();
    t := r.value;
    block.AddTransaction(t);
  }

  /** b is a well-formed block holding exactly txs, with root hash h. */
  ghost predicate Holds(b: Block, txs: seq<Transaction>, h: Option<string>)
    reads b, b.Repr
  {
    b.Valid() && b.Contents() == txs && b.rootHash == h
  }

  class Blockchain {
    /** The blocks in chain order; appended to only. */
    var blockchain: seq<Block>

    /** The transactions of each block, in chain order. */
    ghost var Blocks: seq<seq<Transaction>>
    /** The root hash slot of each block, in chain order. */
    ghost var RootHashes: seq<Option<string>>
    ghost var Repr: set<object>

    ghost predicate Valid()
      reads this, Repr
    {
      && this in Repr
      && |blockchain| == |Blocks| == |RootHashes|
      && forall i :: 0 <= i < |blockchain| ==>
        && blockchain[i] in Repr && blockchain[i].Repr <= Repr && this !in blockchain[i].Repr
        && Holds(blockchain[i], Blocks[i], RootHashes[i])
    }

    /** Builds the chain, emptying the queue. */
    constructor (queue: PriorityLine, threshold: int)
      requires queue.Valid()
      modifies queue.Repr
      ensures queue.Valid() && queue.Repr <= old(queue.Repr) && queue.Contents() == []
      ensures Valid() && fresh(Repr)
      ensures Blocks == Batch(old(queue.Contents()), threshold)
      ensures forall i :: 0 <= i < |RootHashes| ==> RootHashes[i] == None
    {
      blockchain, Blocks, RootHashes := [], [], [];
      new;
      Repr := {this};
      var block, totalBlockFees := Fill(queue, threshold);
      Finish(block, totalBlockFees, threshold);
    }

    /** The constructor's loop: dequeues every transaction, sealing each block
        whose fee total reaches the threshold; returns the block still being
        filled and its fee total. */
    method Fill(queue: PriorityLine, threshold: int) returns (block: Block, totalBlockFees: int)
      requires Valid() && queue.Valid() && queue.Repr !! Repr
      requires Blocks == [] && RootHashes == []
      modifies this, queue.Repr
      ensures queue.Valid() && queue.Repr <= old(queue.Repr) && queue.Contents() == []
      ensures Valid() && fresh(Repr - old(Repr)) && queue.Repr !! Repr
      ensures block.Valid() && fresh(block.Repr) && block.Repr !! Repr && block.rootHash == None
      ensures queue.Repr !! block.Repr
      ensures totalBlockFees == FeeSum(block.Contents())
      ensures Blocks + BatchFrom([], threshold, block.Contents(), totalBlockFees) == Batch(old(queue.Contents()), threshold)
      ensures forall i :: 0 <= i < |RootHashes| ==> RootHashes[i] == None
    {
      block := new Block();
      totalBlockFees := 0;
      while !queue.IsEmpty()
        invariant queue.Valid() && queue.Repr <= old(queue.Repr)
        invariant Valid() && fresh(Repr - old(Repr)) && queue.Repr !! Repr
        invariant block.Valid() && fresh(block.Repr) && block.Repr !! Repr && block.rootHash == None
        invariant queue.Repr !! block.Repr
        invariant totalBlockFees == FeeSum(block.Contents())
        invariant Blocks + BatchFrom(queue.Contents(), threshold, block.Contents(), totalBlockFees)
          == Batch(old(queue.Contents()), threshold)
        invariant forall i :: 0 <= i < |RootHashes| ==> RootHashes[i] == None
        decreases |queue.Contents()|
      {
        block, totalBlockFees := Step(queue, block, totalBlockFees, threshold);
      }
    }

    /** The end of the constructor: a last, partly filled block is kept when
        its fee total is positive (its root hash is set to what it already
        holds). */
    method Finish(block: Block, totalBlockFees: int, threshold: int)
      requires Valid() && block.Valid() && block.Repr !! Repr && block.rootHash == None
      modifies this, block
      ensures Valid() && Repr <= old(Repr) + old(block.Repr)
      ensures Blocks == old(Blocks) + BatchFrom([], threshold, old(block.Contents()), totalBlockFees)
      ensures RootHashes == old(RootHashes) || RootHashes == old(RootHashes) + [None]
    {
      if totalBlockFees > 0 {
        var hash := block.GetRootHash();
        block.SetRootHash(hash);
        Seal(block);
      }
    }

    /** One iteration of the constructor's loop: the next transaction joins
        the block being filled, which is sealed and replaced by an empty one
        once its fee total reaches the threshold. */
    method Step(queue: PriorityLine, block: Block, totalBlockFees: int, threshold: int)
      returns (next: Block, nextTotal: int)
      requires Valid() && queue.Valid() && block.Valid()
      requires queue.Repr !! Repr && block.Repr !! Repr && queue.Repr !! block.Repr
      requires queue.Contents() != [] && totalBlockFees == FeeSum(block.Contents()) && block.rootHash == None
      modifies this, queue.Repr, block.Repr
      ensures queue.Valid() && queue.Repr <= old(queue.Repr) && |queue.Contents()| == |old(queue.Contents())| - 1
      ensures Valid() && fresh(Repr - old(Repr) - old(block.Repr)) && queue.Repr !! Repr
      ensures next.Valid() && fresh(next.Repr - old(block.Repr)) && next.Repr !! Repr && next.rootHash == None
      ensures queue.Repr !! next.Repr
      ensures nextTotal == FeeSum(next.Contents())
      ensures Blocks + BatchFrom(queue.Contents(), threshold, next.Contents(), nextTotal)
        == old(Blocks) + BatchFrom(old(queue.Contents()), threshold, old(block.Contents()), totalBlockFees)
      ensures RootHashes == old(RootHashes) || RootHashes == old(RootHashes) + [None]
    {
      BatchFromStep(queue.Contents(), threshold, block.Contents(), totalBlockFees, Blocks);
      ghost var before := block.Contents();
      var transaction := Take(queue, block);
      assert Valid();
      FeeSumSnoc(before, transaction);
      next, nextTotal := Advance(block, totalBlockFees + transaction.fee, threshold);
    }

    /** The test at the end of each iteration: a block whose fee total has
        reached the threshold is sealed and a new, empty one is started. */
    method Advance(block: Block, totalBlockFees: int, threshold: int) returns (next: Block, nextTotal: int)
      requires Valid() && block.Valid() && block.Repr !! Repr && block.rootHash == None
      modifies this
      ensures Valid() && Repr <= old(Repr) + block.Repr
      ensures next.Valid() && next.Repr !! Repr && next.rootHash == None
      ensures totalBlockFees >= threshold ==>
        && Blocks == old(Blocks) + [block.Contents()] && RootHashes == old(RootHashes) + [None]
        && fresh(next.Repr) && next.Contents() == [] && nextTotal == 0
      ensures totalBlockFees < threshold ==>
        && Blocks == old(Blocks) && RootHashes == old(RootHashes)
        && next == block && nextTotal == totalBlockFees
    {
      next, nextTotal := block, totalBlockFees;
      if totalBlockFees >= threshold {
        Seal(block);
        next := new Block();
        nextTotal := 0;
      }
    }

    /** Appends a finished block to the chain. */
    method Seal(block: Block)
      requires Valid() && block.Valid() && block.Repr !! Repr
      modifies this
      ensures Valid() && Repr == old(Repr) + block.Repr
      ensures blockchain == old(blockchain) + [block]
      ensures Blocks == old(Blocks) + [block.Contents()]
      ensures RootHashes == old(RootHashes) + [block.rootHash]
    {
      blockchain, Blocks, RootHashes, Repr :=
        blockchain + [block], Blocks + [block.Contents()], RootHashes + [block.rootHash], Repr + block.Repr;
    }

    /** The blocks in chain order, as the chain's iterator visits them. */
    method Iterator() returns (it: seq<Block>)
      requires Valid()
      ensures it == blockchain
      ensures forall i :: 0 <= i < |it| ==>
        it[i].Valid() && it[i].Contents() == Blocks[i] && it[i].rootHash == RootHashes[i]
    {
      it := blockchain;
    }
  }
}
