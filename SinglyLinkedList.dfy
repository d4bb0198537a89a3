/** The repository's own singly linked list: head and tail references, a length
    counter, append, sorted insert, indexed removal and lookup, and a cursor
    iterator. */
module SinglyLinkedLists {
  import opened Results

  /** s with v placed at index p. */
  function InsertAt<T>(s: seq<T>, p: nat, v: T): seq<T>
    requires p <= |s|
  {
    s[..p] + [v] + s[p..]
  }

  lemma InsertAtIndex<T>(s: seq<T>, p: nat, v: T)
    requires p <= |s|
    ensures |InsertAt(s, p, v)| == |s| + 1
    ensures forall i :: 0 <= i <= |s| ==>
      InsertAt(s, p, v)[i] == if i < p then s[i] else if i == p then v else s[i - 1]
  {
  }

  /** How many leading elements of s compare greater than v. */
  function LeadingGreater<T>(s: seq<T>, v: T, compare: (T, T) -> int): (n: nat)
    ensures n <= |s|
    ensures forall j :: 0 <= j < n ==> compare(s[j], v) > 0
    ensures n < |s| ==> compare(s[n], v) <= 0
  {
    if s == [] || compare(s[0], v) <= 0 then 0 else 1 + LeadingGreater(s[1..], v, compare)
  }

  /** The index at which `insert` places v: the front when the head compares
      less than v; otherwise just past the head and past every further element
      that compares greater than v. */
  function InsertionIndex<T>(s: seq<T>, v: T, compare: (T, T) -> int): (p: nat)
    ensures p <= |s|
  {
    if s == [] || compare(s[0], v) < 0 then 0 else 1 + LeadingGreater(s[1..], v, compare)
  }

  class ListNode<T> {
    const value: T
    var next: ListNode?<T>

    constructor (value: T)
      ensures this.value == value && next == null
    {
      this.value := value;
      next := null;
    }
  }

  class SinglyLinkedList<T> {
    var head: ListNode?<T>
    var length: int
    var tail: ListNode?<T>

    /** The values in list order, the nodes that hold them, and the objects
        the list is made of. */
    ghost var Contents: seq<T>
    ghost var Nodes: seq<ListNode<T>>
    ghost var Repr: set<object>

    ghost predicate Valid()
      reads this, Repr
    {
      && this in Repr
      && (forall i :: 0 <= i < |Nodes| ==> Nodes[i] in Repr)
      && length == |Nodes| && |Contents| == |Nodes|
      && (forall i :: 0 <= i < |Nodes| ==> Nodes[i].value == Contents[i])
      && (forall i :: 0 <= i < |Nodes| - 1 ==> Nodes[i].next != null && Nodes[i].next == Nodes[i + 1])
      && (if Nodes == [] then head == null && tail == null
          else head == Nodes[0] && tail == Nodes[|Nodes| - 1] && tail.next == null)
    }

    constructor ()
      ensures Valid() && fresh(Repr)
      ensures Contents == []
    {
      head := null;
      tail := null;
      length := 0;
      Contents, Nodes := [], [];
      Repr := {this};
    }

    /** The length counter, which always equals the number of nodes. */
    function Size(): (n: int)
      requires Valid()
      reads Repr
      ensures n == |Contents|
    {
      length
    }

    predicate IsEmpty()
      requires Valid()
      reads Repr
      ensures IsEmpty() <==> Contents == []
    {
      length == 0
    }

    /** Appends value at the end; the new node becomes the tail. */
    method Add(value: T)
      requires Valid()
      modifies Repr
      ensures Valid() && fresh(Repr - old(Repr))
      ensures Contents == old(Contents) + [value]
      ensures tail != null && tail.value == value
    {
      var newNode := new ListNode(value);
      if head == null {
        head := newNode;
      } else {
        tail.next := newNode;
      }
      tail := newNode;
      length := length + 1;
      Contents, Nodes := Contents + [value], Nodes + [newNode];
      Repr := Repr + {newNode};
    }

    /** Inserts value where InsertionIndex says, walking from the head. */
    method Insert(newValue: T, compare: (T, T) -> int)
      requires Valid()
      modifies Repr
      ensures Valid() && fresh(Repr - old(Repr))
      ensures Contents == InsertAt(old(Contents), InsertionIndex(old(Contents), newValue, compare), newValue)
    {
      var newNode := new ListNode(newValue);
      if length == 0 {
        LinkOnly(newNode);
      } else if compare(head.value, newValue) < 0 {
        LinkFirst(newNode);
      } else {
        var temp, k := WalkGreater(newValue, compare);
        LinkAfter(temp, k, newNode);
      }
    }

    /** The walk of `insert`: from the head, step on while the next value
        compares greater than newValue. */
    method WalkGreater(newValue: T, compare: (T, T) -> int) returns (temp: ListNode<T>, ghost k: nat)
      requires Valid() && Nodes != []
      ensures k < |Nodes| && temp == Nodes[k]
      ensures k == LeadingGreater(Contents[1..], newValue, compare)
    {
      temp := head;
      k := 0;
      while temp.next != null && compare(temp.next.value, newValue) > 0
        invariant 0 <= k < |Nodes| && temp == Nodes[k]
        invariant forall j :: 1 <= j <= k ==> compare(Contents[j], newValue) > 0
        decreases |Nodes| - k
      {
        temp := temp.next;
        k := k + 1;
      }
      LeadingGreaterIs(Contents[1..], newValue, compare, k);
    }

    /** The relinking done by `insert` into an empty list. */
    method LinkOnly(newNode: ListNode<T>)
      requires Valid() && Nodes == []
      requires newNode !in Repr
      modifies Repr, newNode
      ensures Valid() && Repr == old(Repr) + {newNode}
      ensures Contents == [newNode.value]
    {
      newNode.next := null;
      head := newNode;
      tail := newNode;
      length := length + 1;
      Contents, Nodes := [newNode.value], [newNode];
      Repr := Repr + {newNode};
    }

    /** The relinking done by `insert` when the new node goes before the head. */
    method LinkFirst(newNode: ListNode<T>)
      requires Valid() && head != null
      requires newNode !in Repr
      modifies Repr, newNode
      ensures Valid() && Repr == old(Repr) + {newNode}
      ensures Contents == [newNode.value] + old(Contents)
    {
      newNode.next := head;
      head := newNode;
      length := length + 1;
      Contents, Nodes := [newNode.value] + Contents, [newNode] + Nodes;
      Repr := Repr + {newNode};
    }

    /** The relinking done by `insert` once the walk has stopped at temp,
        the k-th node: the new node goes right after it. */
    method LinkAfter(temp: ListNode<T>, ghost k: nat, newNode: ListNode<T>)
      requires Valid() && k < |Nodes| && temp == Nodes[k]
      requires newNode !in Repr
      modifies Repr, newNode
      ensures Valid() && Repr == old(Repr) + {newNode}
      ensures Contents == old(Contents)[..k + 1] + [newNode.value] + old(Contents)[k + 1..]
    {
      ghost var N := Nodes;
      Relink(temp, k, newNode);
      Contents := Contents[..k + 1] + [newNode.value] + Contents[k + 1..];
      Nodes := N[..k + 1] + [newNode] + N[k + 1..];
      Repr := Repr + {newNode};
      forall i | 0 <= i < |Nodes| - 1
        ensures Nodes[i].next != null && Nodes[i].next == Nodes[i + 1]
      {
        if i < k {
          assert Nodes[i] == N[i] && Nodes[i + 1] == N[i + 1];
        } else if i == k {
          assert Nodes[i] == temp && Nodes[i + 1] == newNode;
        } else if i == k + 1 {
          assert Nodes[i] == newNode && Nodes[i + 1] == N[k + 1];
        } else {
          assert Nodes[i] == N[i - 1] && Nodes[i + 1] == N[i];
        }
      }
    }

    /** The two link writes of LinkAfter, with the tail and the length:
        every other link of the chain is left as it was. */
    method Relink(temp: ListNode<T>, ghost k: nat, newNode: ListNode<T>)
      requires Valid() && k < |Nodes| && temp == Nodes[k]
      requires newNode !in Repr
      modifies this, temp, newNode
      ensures Nodes == old(Nodes) && Contents == old(Contents) && Repr == old(Repr)
      ensures head == old(head) && length == old(length) + 1
      ensures temp.next == newNode
      ensures newNode.next == if k + 1 < |Nodes| then Nodes[k + 1] else null
      ensures tail == if k + 1 < |Nodes| then old(tail) else newNode
      ensures forall i :: 0 <= i < |Nodes| - 1 && i != k ==> Nodes[i].next == Nodes[i + 1]
    {
      NodeAtOnly(k);
      assert forall i :: 0 <= i < |Nodes| ==> Nodes[i] != newNode;
      newNode.next := temp.next;
      temp.next := newNode;
      if newNode.next == null {
        tail := newNode;
      }
      length := length + 1;
    }

    /** Unlinks the head; an empty list throws. */
    method RemoveFirst() returns (r: Result<T>)
      requires Valid()
      modifies Repr
      ensures Valid() && Repr <= old(Repr)
      ensures old(Contents) == [] ==> r == Fail(RuntimeError) && Contents == old(Contents)
      ensures old(Contents) != [] ==> r == Ok(old(Contents)[0]) && Contents == old(Contents)[1..]
    {
      if length == 0 {
        return Fail(RuntimeError);
      }
      NodeAtOnly(0);
      var temp := head;
      if length == 1 {
        head := null;
        tail := null;
      } else {
        head := head.next;
        temp.next := null;
      }
      length := length - 1;
      Contents, Nodes := Contents[1..], Nodes[1..];
      Repr := Repr - {temp};
      return Ok(temp.value);
    }

    /** Unlinks the tail, walking to the node before it; an empty list throws. */
    method RemoveLast() returns (r: Result<T>)
      requires Valid()
      modifies Repr
      ensures Valid() && Repr <= old(Repr)
      ensures old(Contents) == [] ==> r == Fail(RuntimeError) && Contents == old(Contents)
      ensures old(Contents) != [] ==>
        r == Ok(old(Contents)[|old(Contents)| - 1]) && Contents == old(Contents)[..|old(Contents)| - 1]
    {
      if length == 0 {
        return Fail(RuntimeError);
      }
      var temp := head;
      if length == 1 {
        head := null;
        tail := null;
        length := length - 1;
        Contents, Nodes := [], [];
        Repr := Repr - {temp};
        return Ok(temp.value);
      }
      ghost var k := 0;
      while temp.next.next != null
        invariant Valid()
        invariant 0 <= k <= |Nodes| - 2 && temp == Nodes[k] && temp.next == Nodes[k + 1]
        decreases |Nodes| - k
      {
        temp := temp.next;
        k := k + 1;
        assert k < |Nodes| - 1 ==> Nodes[k].next == Nodes[k + 1];
      }
      OnlyLastEndsChain(k + 1);
      NodeAtOnly(k + 1);
      NodeAtOnly(k);
      var temp2 := temp.next;
      temp.next := null;
      tail := temp;
      length := length - 1;
      Contents, Nodes := Contents[..k + 1], Nodes[..k + 1];
      Repr := Repr - {temp2};
      return Ok(temp2.value);
    }

    /** Removes and returns the value at index; an index outside 0..length-1 throws. */
    method Remove(index: int) returns (r: Result<T>)
      requires Valid()
      modifies Repr
      ensures Valid() && Repr <= old(Repr)
      ensures !(0 <= index < |old(Contents)|) ==> r == Fail(RuntimeError) && Contents == old(Contents)
      ensures 0 <= index < |old(Contents)| ==>
        r == Ok(old(Contents)[index]) && Contents == old(Contents)[..index] + old(Contents)[index + 1..]
    {
      if index < 0 || index >= length {
        return Fail(RuntimeError);
      }
      var temp := head;
      if index == 0 {
        r := RemoveFirst();
        assert old(Contents)[..0] + old(Contents)[1..] == old(Contents)[1..];
      } else if index == length - 1 {
        r := RemoveLast();
        assert old(Contents)[index + 1..] == [];
      } else {
        for i := 0 to index - 1
          invariant Valid()
          invariant temp == Nodes[i]
        {
          temp := temp.next;
        }
        r := UnlinkAfter(temp, index - 1);
      }
    }

    /** The relinking done by `remove` in the middle of the list: the node
        after temp, the k-th node, is unlinked. */
    method UnlinkAfter(temp: ListNode<T>, ghost k: nat) returns (r: Result<T>)
      requires Valid() && k + 2 < |Nodes| && temp == Nodes[k]
      modifies Repr
      ensures Valid() && Repr <= old(Repr)
      ensures r == Ok(old(Contents)[k + 1]) && Contents == old(Contents)[..k + 1] + old(Contents)[k + 2..]
    {
      assert temp.next == Nodes[k + 1] && Nodes[k + 1].next == Nodes[k + 2];
      NodeAtOnly(k);
      NodeAtOnly(k + 1);
      var temp2 := temp.next;
      temp.next := temp2.next;
      temp2.next := null;
      length := length - 1;
      Contents := Contents[..k + 1] + Contents[k + 2..];
      Nodes := Nodes[..k + 1] + Nodes[k + 2..];
      Repr := Repr - {temp2};
      r := Ok(temp2.value);
    }

    /** The value at index, found by walking from the head; an index outside
        0..length-1 throws. */
    method Get(index: int) returns (r: Result<T>)
      requires Valid()
      ensures r == if 0 <= index < |Contents| then Ok(Contents[index]) else Fail(RuntimeError)
    {
      var temp := head;
      if index < 0 || index >= length {
        return Fail(RuntimeError);
      }
      for i := 0 to index
        invariant temp == Nodes[i]
      {
        temp := temp.next;
      }
      return Ok(temp.value);
    }

    /** No node occurs twice: the chain ends at the tail, whose successor is null. */
    lemma {:induction false} DistinctNodes(i: int, j: int)
      requires Valid() && 0 <= i < j < |Nodes|
      ensures Nodes[i] != Nodes[j]
      decreases |Nodes| - j
    {
      if j < |Nodes| - 1 {
        DistinctNodes(i + 1, j + 1);
      }
    }

    /** The k-th node occurs only at index k. */
    lemma NodeAtOnly(k: int)
      requires Valid() && 0 <= k < |Nodes|
      ensures forall i :: 0 <= i < |Nodes| && i != k ==> Nodes[i] != Nodes[k]
    {
      forall i | 0 <= i < |Nodes| && i != k
        ensures Nodes[i] != Nodes[k]
      {
        if i < k {
          DistinctNodes(i, k);
        } else {
          DistinctNodes(k, i);
        }
      }
    }

    /** Only the last node has no successor. */
    lemma OnlyLastEndsChain(j: int)
      requires Valid() && 0 <= j < |Nodes| && Nodes[j].next == null
      ensures j == |Nodes| - 1
    {
    }

    /** A cursor positioned at the head. */
    method Iterator() returns (it: ListIterator<T>)
      requires Valid()
      ensures fresh(it) && it.Valid()
      ensures it.Elements == Contents && it.Position == 0
    {
      it := new ListIterator(this);
    }
  }

  /** The list's iterator: a cursor over the nodes it was started on. */
  class ListIterator<T> {
    var current: ListNode?<T>
    ghost const Elements: seq<T>
    ghost const Nodes: seq<ListNode<T>>
    ghost var Position: nat

    ghost predicate Valid()
      reads this, Nodes
    {
      && |Nodes| == |Elements| && Position <= |Nodes|
      && (forall i :: 0 <= i < |Nodes| ==> Nodes[i].value == Elements[i])
      && (forall i :: 0 <= i < |Nodes| - 1 ==> Nodes[i].next == Nodes[i + 1])
      && (Nodes != [] ==> Nodes[|Nodes| - 1].next == null)
      && current == (if Position < |Nodes| then Nodes[Position] else null)
    }

    constructor (list: SinglyLinkedList<T>)
      requires list.Valid()
      ensures Valid() && Elements == list.Contents && Position == 0
    {
      current := list.head;
      Elements := list.Contents;
      Nodes := list.Nodes;
      Position := 0;
    }

    predicate HasNext()
      requires Valid()
      reads this, Nodes
      ensures HasNext() <==> Position < |Elements|
    {
      current != null
    }

    /** The next value in list order; past the end it throws. */
    method Next() returns (r: Result<T>)
      requires Valid()
      modifies this
      ensures Valid()
      ensures old(Position) < |Elements| ==> r == Ok(Elements[old(Position)]) && Position == old(Position) + 1
      ensures old(Position) == |Elements| ==> r == Fail(RuntimeError) && Position == old(Position)
    {
      if !HasNext() {
        return Fail(RuntimeError);
      }
      var value := current.value;
      current := current.next;
      Position := Position + 1;
      return Ok(value);
    }
  }

  lemma {:induction false} LeadingGreaterIs<T>(s: seq<T>, v: T, compare: (T, T) -> int, m: nat)
    requires m <= |s|
    requires forall j :: 0 <= j < m ==> compare(s[j], v) > 0
    requires m < |s| ==> compare(s[m], v) <= 0
    ensures LeadingGreater(s, v, compare) == m
  {
    if m > 0 {
      LeadingGreaterIs(s[1..], v, compare, m - 1);
    }
  }
}
