/** The priority queue of transactions: a linked list kept in non-increasing
    order of fee by the list's sorted insert, dequeued from the front. */
module PriorityLines {
  import opened Results
  import opened Transactions
  import opened SinglyLinkedLists
  import opened PowersOfTwo

  /** Fees never increase from front to back. */
  ghost predicate NonIncreasing(s: seq<Transaction>)
  {
    forall i, j :: 0 <= i < j < |s| ==> s[i].fee >= s[j].fee
  }

  /** How many elements of s have a fee greater than v's. */
  function CountGreater(s: seq<Transaction>, v: Transaction): (n: nat)
    ensures n <= |s|
  {
    if s == [] then 0 else (if s[0].fee > v.fee then 1 else 0) + CountGreater(s[1..], v)
  }

  lemma {:induction false} CountGreaterNone(s: seq<Transaction>, v: Transaction)
    requires forall i :: 0 <= i < |s| ==> s[i].fee <= v.fee
    ensures CountGreater(s, v) == 0
  {
    if s != [] {
      CountGreaterNone(s[1..], v);
    }
  }

  /** In a non-increasing queue the elements greater than v are exactly the
      leading ones. */
  lemma {:induction false} CountGreaterIsLeading(s: seq<Transaction>, v: Transaction)
    requires NonIncreasing(s)
    ensures CountGreater(s, v) == LeadingGreater(s, v, CompareTo)
  {
    if s != [] {
      if s[0].fee > v.fee {
        CountGreaterIsLeading(s[1..], v);
      } else {
        CountGreaterNone(s[1..], v);
      }
    }
  }

  /** Where enqueue puts v in a non-increasing queue: at the front exactly
      when the head's fee is below v's; otherwise after every element with a
      greater fee, but never in front of the head, so at index
      max(1, number of greater fees). */
  lemma InsertionIndexPlacement(s: seq<Transaction>, v: Transaction)
    requires NonIncreasing(s)
    ensures InsertionIndex(s, v, CompareTo) == 0 <==> s == [] || s[0].fee < v.fee
    ensures s != [] && s[0].fee >= v.fee ==>
      InsertionIndex(s, v, CompareTo) == Max(1, CountGreater(s, v))
  {
    if s != [] && s[0].fee >= v.fee {
      CountGreaterIsLeading(s, v);
      if s[0].fee == v.fee {
        CountGreaterIsLeading(s[1..], v);
        CountGreaterNone(s[1..], v);
      }
    }
  }

  /** Inserting at InsertionIndex keeps a non-increasing queue non-increasing. */
  lemma InsertKeepsOrder(s: seq<Transaction>, v: Transaction)
    requires NonIncreasing(s)
    ensures NonIncreasing(InsertAt(s, InsertionIndex(s, v, CompareTo), v))
  {
    var p := InsertionIndex(s, v, CompareTo);
    var r := InsertAt(s, p, v);
    InsertAtIndex(s, p, v);
    assert forall i :: 0 <= i < p ==> s[i].fee >= v.fee by {
      if p > 0 {
        assert CompareTo(s[0], v) >= 0;
        forall i | 1 <= i < p
          ensures s[i].fee >= v.fee
        {
          assert s[1..][i - 1] == s[i];
        }
      }
    }
    assert forall i :: p <= i < |s| ==> s[i].fee <= v.fee by {
      if p < |s| {
        if p == 0 {
          assert s[0].fee < v.fee;
        } else {
          assert s[1..][p - 1] == s[p];
        }
      }
    }
    forall i, j | 0 <= i < j < |r|
      ensures r[i].fee >= r[j].fee
    {
      if j < p {
        assert r[i] == s[i] && r[j] == s[j];
      } else if j == p {
        assert r[i] == s[i] && r[j] == v;
      } else if i < p {
        assert r[i] == s[i] && r[j] == s[j - 1];
      } else if i == p {
        assert r[i] == v && r[j] == s[j - 1];
      } else {
        assert r[i] == s[i - 1] && r[j] == s[j - 1];
      }
    }
  }

  lemma InsertAtMultiset<T>(s: seq<T>, p: nat, v: T)
    requires p <= |s|
    ensures multiset(InsertAt(s, p, v)) == multiset(s) + multiset{v}
  {
    assert s == s[..p] + s[p..];
  }

  class PriorityLine {
    var queue: SinglyLinkedList<Transaction>

    ghost var Repr: set<object>

    ghost predicate Valid()
      reads this, Repr
    {
      && this in Repr
      && queue in Repr && queue.Repr <= Repr && this !in queue.Repr
      && queue.Valid()
      && NonIncreasing(queue.Contents)
    }

    /** The queued transactions, front first. */
    ghost function Contents(): seq<Transaction>
      reads this, queue
    {
      queue.Contents
    }

    constructor ()
      ensures Valid() && fresh(Repr)
      ensures Contents() == []
    {
      queue := new SinglyLinkedList();
      new;
      Repr := {this} + queue.Repr;
    }

    /** Sorted insert by fee; the queue stays non-increasing and gains exactly
        the one element. */
    method Enqueue(element: Transaction)
      requires Valid()
      modifies Repr
      ensures Valid() && fresh(Repr - old(Repr))
      ensures Contents() == InsertAt(old(Contents()), InsertionIndex(old(Contents()), element, CompareTo), element)
      ensures multiset(Contents()) == multiset(old(Contents())) + multiset{element}
      ensures |Contents()| == |old(Contents())| + 1
    {
      InsertKeepsOrder(queue.Contents, element);
      InsertAtMultiset(queue.Contents, InsertionIndex(queue.Contents, element, CompareTo), element);
      queue.Insert(element, CompareTo);
      Repr := Repr + queue.Repr;
    }

    /** Removes the front element, whose fee is at least every remaining fee;
        an empty queue throws. */
    method Dequeue() returns (r: Result<Transaction>)
      requires Valid()
      modifies Repr
      ensures Valid() && Repr <= old(Repr)
      ensures old(Contents()) == [] ==> r == Fail(RuntimeError) && Contents() == []
      ensures old(Contents()) != [] ==> r == Ok(old(Contents())[0]) && Contents() == old(Contents())[1..]
      ensures r.Ok? ==> forall i :: 0 <= i < |Contents()| ==> Contents()[i].fee <= r.value.fee
    {
      ghost var s := queue.Contents;
      r := queue.Remove(0);
      if s != [] {
        assert s[..0] + s[1..] == s[1..];
      }
    }

    function Size(): (n: int)
      requires Valid()
      reads Repr
      ensures n == |Contents()|
    {
      queue.Size()
    }

    predicate IsEmpty()
      requires Valid()
      reads Repr
      ensures IsEmpty() <==> Contents() == []
      ensures IsEmpty() <==> Size() == 0
    {
      queue.IsEmpty()
    }

    /** The element Dequeue would return, leaving the queue as it is; an empty
        queue throws. */
    method Peek() returns (r: Result<Transaction>)
      requires Valid()
      ensures r == if Contents() == [] then Fail(RuntimeError) else Ok(Contents()[0])
      ensures r.Ok? ==> forall i :: 0 <= i < |Contents()| ==> Contents()[i].fee <= r.value.fee
    {
      r := queue.Get(0);
    }

    /** A cursor over the queue in dequeue order. */
    method Iterator() returns (it: ListIterator<Transaction>)
      requires Valid()
      ensures fresh(it) && it.Valid()
      ensures it.Elements == Contents() && it.Position == 0
      ensures NonIncreasing(it.Elements)
    {
      it := queue.Iterator();
    }
  }
}
