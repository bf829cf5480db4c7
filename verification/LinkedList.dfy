/** The singly linked lists of the message queue and of the waiter list: nodes are appended by walking
    to the end, taken from the front, or unlinked by their data
    (uwb/halimpl/tml/phDal4Uwb_messageQueueLib.cc:156-231, uwb/halimpl/utils/phNxpUciHal_utils.cc:81-222). */
module LinkedList {
  import opened Bytes

  class Node<T> {
    var data: T
    var next: Node?<T>

    constructor (data: T)
      ensures this.data == data && next == null
    {
      this.data, next := data, null;
    }
  }

  function RemoveFirst<T(==)>(s: seq<T>, x: T): seq<T> {
    if s == [] then [] else if s[0] == x then s[1..] else [s[0]] + RemoveFirst(s[1..], x)
  }

  lemma {:induction false} RemoveAt<T>(s: seq<T>, x: T, i: nat)
    requires i < |s| && s[i] == x && forall k :: 0 <= k < i ==> s[k] != x
    ensures RemoveFirst(s, x) == s[..i] + s[i + 1..]
  {
    if i > 0 { RemoveAt(s[1..], x, i - 1); }
  }

  lemma {:induction false} RemoveAbsent<T>(s: seq<T>, x: T)
    requires x !in s
    ensures RemoveFirst(s, x) == s
  {
    if s != [] { RemoveAbsent(s[1..], x); }
  }

  class List<T(==)> {
    var first: Node?<T>
    /** The nodes from the front to the end. */
    ghost var spine: seq<Node<T>>

    ghost predicate Valid()
      reads this, spine
    {
      && first == At(0)
      && (forall i :: 0 <= i < |spine| ==> spine[i].next == At(i + 1))
      && (forall i, j :: 0 <= i < j < |spine| ==> spine[i] != spine[j])
    }

    ghost function At(i: nat): Node?<T>
      reads this
    {
      if i < |spine| then spine[i] else null
    }

    ghost function Contents(): (s: seq<T>)
      reads this, spine
      ensures |s| == |spine| && forall i :: 0 <= i < |spine| ==> s[i] == spine[i].data
    {
      seq(|spine|, i requires 0 <= i < |spine| reads this, spine => spine[i].data)
    }

    constructor ()
      ensures Valid() && Contents() == [] && fresh(spine)
    {
      first, spine := null, [];
    }

    /** phDal4Uwb_msgsnd's and listAdd's critical section. */
    method Append(data: T)
      requires Valid()
      modifies this, spine
      ensures Valid() && Contents() == old(Contents()) + [data]
      ensures fresh(spine[|old(spine)|..]) && spine[..|old(spine)|] == old(spine)
    {
      var node := new Node(data);
      if first != null {
        var last := first;
        ghost var i := 0;
        while last.next != null
          invariant 0 <= i < |spine| && last == spine[i]
          decreases |spine| - i
        {
          last, i := last.next, i + 1;
        }
        last.next := node;
      } else {
        first := node;
      }
      spine := spine + [node];
    }

    /** phDal4Uwb_msgrcv's and listGetAndRemoveNext's critical section. */
    method TakeFirst() returns (data: Option<T>)
      requires Valid()
      modifies this
      ensures Valid()
      ensures data.None? <==> old(Contents()) == []
      ensures data.Some? ==> old(Contents()) == [data.value] + Contents()
      ensures data.None? ==> Contents() == []
    {
      if first == null { return None; }
      data := Some(first.data);
      first := first.next;
      spine := spine[1..];
    }

    /** The walk of listRemove: the last node in front of the first match, or the last node. */
    method FindBefore(data: T) returns (node: Node<T>, ghost i: nat)
      requires Valid() && first != null && first.data != data
      ensures i < |spine| && node == spine[i]
      ensures forall k :: 0 <= k <= i ==> spine[k].data != data
      ensures node.next != null ==> node.next.data == data
    {
      node, i := first, 0;
      while node.next != null && node.next.data != data
        invariant i < |spine| && node == spine[i]
        invariant forall k :: 0 <= k <= i ==> spine[k].data != data
        decreases |spine| - i
      {
        node, i := node.next, i + 1;
      }
    }

    method UnlinkAfter(node: Node<T>, ghost i: nat)
      requires Valid() && i + 1 < |spine| && node == spine[i]
      modifies this, node
      ensures Valid() && Contents() == old(Contents()[..i + 1] + Contents()[i + 2..])
    {
      node.next := node.next.next;
      spine := spine[..i + 1] + spine[i + 2..];
    }

    /** listRemove: unlinks the first node with the given data. */
    method Remove(data: T) returns (removed: bool)
      requires Valid()
      modifies this, spine
      ensures Valid() && Contents() == RemoveFirst(old(Contents()), data)
      ensures removed <==> data in old(Contents())
    {
      if first == null { return false; }
      if first.data == data {
        RemoveAt(Contents(), data, 0);
        var _ := TakeFirst();
        return true;
      }
      var node;
      ghost var i;
      node, i := FindBefore(data);
      if node.next == null {
        RemoveAbsent(Contents(), data);
        return false;
      }
      RemoveAt(Contents(), data, i + 1);
      UnlinkAfter(node, i);
      removed := true;
    }
  }
}
