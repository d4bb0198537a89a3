/** A block of the chain: its transactions, in the order they were added, and
    the slot for the root hash of their Merkle tree (None stands for null). */
module Blocks {
  import opened Results
  import opened Transactions
  import opened SinglyLinkedLists

  class Block {
    var transactions: SinglyLinkedList<Transaction>
    var rootHash: Option<string>

    ghost var Repr: set<object>

    ghost predicate Valid()
      reads this, Repr
    {
      && this in Repr
      && transactions in Repr && transactions.Repr <= Repr && this !in transactions.Repr
      && transactions.Valid()
    }

    /** The block's transactions in order. */
    ghost function Contents(): seq<Transaction>
      reads this, transactions
    {
      transactions.Contents
    }

    /** An empty block whose root hash is null. */
    constructor ()
      ensures Valid() && fresh(Repr)
      ensures Contents() == [] && rootHash == None
    {
      transactions := new SinglyLinkedList();
      rootHash := None;
      new;
      Repr := {this} + transactions.Repr;
    }

    /** Appends t at the end of the block. */
    method AddTransaction(t: Transaction)
      requires Valid()
      modifies Repr
      ensures Valid() && fresh(Repr - old(Repr))
      ensures Contents() == old(Contents()) + [t] && rootHash == old(rootHash)
    {
      transactions.Add(t);
      Repr := Repr + transactions.Repr;
    }

    /** The number of transactions added so far. */
    function NumOfTransactions(): (n: int)
      requires Valid()
      reads Repr
      ensures n == |Contents()|
    {
      transactions.Size()
    }

    /** The hash stored by the last SetRootHash; None on a new block. */
    function GetRootHash(): (h: Option<string>)
      reads this
      ensures h == rootHash
    {
      rootHash
    }

    /** Overwrites the root hash and nothing else. */
    method SetRootHash(hashCode: Option<string>)
      requires Valid()
      modifies this
      ensures Valid() && Repr == old(Repr)
      ensures GetRootHash() == hashCode
      ensures transactions == old(transactions) && Contents() == old(Contents())
    {
      rootHash := hashCode;
    }

    /** A cursor over the transactions in the order they were added. */
    method Iterator() returns (it: ListIterator<Transaction>)
      requires Valid()
      ensures fresh(it) && it.Valid()
      ensures it.Elements == Contents() && it.Position == 0
    {
      it := transactions.Iterator();
    }

    /** Blocks are ordered by their number of transactions. */
    function CompareTo(o: Block): (r: int)
      requires Valid() && o.Valid()
      reads Repr, o.Repr
      ensures r == |Contents()| - |o.Contents()|
      ensures r == 0 <==> |Contents()| == |o.Contents()|
    {
      NumOfTransactions() - o.NumOfTransactions()
    }
  }
}
