/** A singly linked list of characters with references to both its first
    and its last node. */
module DoubleEndedLinkedList {
  import opened Java
  import opened ListNode

  /** `first` starts the chain `nodes`, and `last` is its last node: `first`
      is null exactly when `last` is. */
  ghost predicate Ends(first: Node?, last: Node?, nodes: seq<Node>)
    reads nodes
  {
    Chain(first, nodes) &&
    (last == null <==> nodes == []) &&
    (nodes != [] ==> last == nodes[|nodes| - 1])
  }

  /** The ends after a node is linked in after `nodes[k]`. */
  lemma EndsAfterLinkIn(first: Node, last: Node, newLast: Node, nodes: seq<Node>, k: nat, node: Node)
    requires k < |nodes| && first == nodes[0] && last == nodes[|nodes| - 1]
    requires newLast == if k + 1 < |nodes| then last else node
    requires Linked(nodes[..k + 1] + [node] + nodes[k + 1..])
    requires Distinct(nodes[..k + 1] + [node] + nodes[k + 1..])
    ensures Ends(first, newLast, nodes[..k + 1] + [node] + nodes[k + 1..])
  {
    EndsAfterInsert(nodes, k, node);
  }

  class DoubleEndedLinkedList {
    var head: Node?
    var tail: Node?
    /** The nodes reached from `head`, in order. */
    ghost var spine: seq<Node>

    /** `head` starts the chain, and `tail` is its last node: `head` is null
        exactly when `tail` is. */
    ghost predicate Valid()
      reads this, spine
    {
      Ends(head, tail, spine)
    }

    /** The list's characters, from the head. */
    ghost function Contents(): seq<char>
      reads this
    {
      Values(spine)
    }

    /** An empty list. */
    constructor ()
      ensures Valid() && Contents() == []
    {
      head := null;
      tail := null;
      spine := [];
    }

    /** `isEmpty`. */
    function IsEmpty(): (b: bool)
      reads this, spine
      requires Valid()
      ensures b <==> Contents() == []
    {
      head == null
    }

    /** `head == tail` on a non-empty list means it has one node. */
    lemma SingleNode()
      requires Valid() && spine != []
      ensures head == tail <==> |spine| == 1
    {
      if |spine| > 1 {
        assert spine[0] != spine[|spine| - 1];
      }
    }

    /** The node at `k` is `tail` exactly when it is the last one. */
    lemma TailAt(k: nat)
      requires Valid() && k < |spine|
      ensures spine[0] == head && spine[|spine| - 1] == tail
      ensures spine[k] == tail <==> k == |spine| - 1
    {
    }

    /** `insertFirst`: prepends `value`; on an empty list the new node is the
        tail too. */
    method InsertFirst(value: char)
      requires Valid()
      modifies this
      ensures Valid() && Contents() == [value] + old(Contents())
    {
      var newNode := new Node(value);
      if IsEmpty() {
        head := newNode;
        tail := newNode;
        spine := [newNode];
      } else {
        newNode.next := head;
        head := newNode;
        spine := [newNode] + spine;
      }
    }

    /** `insertAfter`: inserts `value` right after the first node holding
        `predValue`, moving `tail` when that node was the tail, or throws
        `NoSuchElementException` when there is none, changing nothing. */
    method InsertAfter(predValue: char, value: char) returns (o: Outcome)
      requires Valid()
      modifies this, spine
      ensures Valid()
      ensures o == if predValue in old(Contents()) then Pass else Fail(NoSuchElement)
      ensures o.Pass? ==> Contents() == InsertAfterAt(old(Contents()), FirstIndex(old(Contents()), predValue), value)
      ensures o.Fail? ==> Contents() == old(Contents())
    {
      ghost var s := spine;
      var pred, k := FindFirst(head, spine, predValue);
      if pred != null {
        ghost var first, last := s[0], s[|s| - 1];
        assert head == first && tail == last && (pred == tail <==> k + 1 == |s|) by {
          TailAt(k);
        }
        var newNode := new Node(value);
        ghost var newLast := if k + 1 < |s| then last else newNode;
        LinkIn(pred, newNode, s, k);
        if pred == tail {
          tail := newNode;
        }
        spine := s[..k + 1] + [newNode] + s[k + 1..];
        assert Valid() by {
          EndsAfterLinkIn(first, last, newLast, s, k, newNode);
        }
        assert Contents() == InsertAfterAt(Values(s), k, value) by {
          ValuesInsert(s, k, newNode);
        }
        return Pass;
      } else {
        return Fail(NoSuchElement);
      }
    }

    /** `insertLast`: appends `value` by linking it after `tail`, with no
        walk. */
    method InsertLast(value: char)
      requires Valid()
      modifies this, spine
      ensures Valid() && Contents() == old(Contents()) + [value]
    {
      if IsEmpty() {
        var newNode := new Node(value);
        head := newNode;
        tail := newNode;
        spine := [newNode];
      } else {
        ghost var s := spine;
        var newNode := LinkAfter(tail, s, |s| - 1, value);
        tail := newNode;
        assert s[..|s|] + [newNode] + s[|s|..] == s + [newNode];
        spine := s + [newNode];
      }
    }

    /** `deleteFirst`: unlinks the head, emptying a one-node list, or throws
        `NoSuchElementException` on an empty list. */
    method DeleteFirst() returns (o: Outcome)
      requires Valid()
      modifies this
      ensures Valid()
      ensures o == if old(Contents()) == [] then Fail(NoSuchElement) else Pass
      ensures o.Pass? ==> Contents() == old(Contents())[1..]
      ensures o.Fail? ==> Contents() == old(Contents())
    {
      if IsEmpty() {
        return Fail(NoSuchElement);
      }
      SingleNode();
      if head == tail {
        head := null;
        tail := null;
        spine := [];
      } else {
        ChainTail(head, spine);
        head := head.next;
        spine := spine[1..];
      }
      return Pass;
    }

    /** `deleteByValue`: deletes the first occurrence of `value`, moving
        `tail` back when the last node goes; an empty list or an absent
        value throws `NoSuchElementException` and changes nothing. */
    method DeleteByValue(value: char) returns (o: Outcome)
      requires Valid()
      modifies this, spine
      ensures Valid()
      ensures (o, Contents()) == DeleteByValueIntended(old(Contents()), value)
    {
      if IsEmpty() {
        return Fail(NoSuchElement);
      }
      if head.data == value {
        assert FirstIndex(Contents(), value) == 0;
        assert Contents()[1..] == RemoveAt(Contents(), 0);
        DeleteHead();
        return Pass;
      }
      DeleteLaterMatches(Contents(), value);
      o := DeleteLaterOccurrence(value);
    }

    /** The head case of `deleteByValue`: a one-node list is emptied,
        otherwise `head` moves on. */
    method DeleteHead()
      requires Valid() && spine != []
      modifies this
      ensures Valid() && Contents() == old(Contents())[1..]
    {
      SingleNode();
      if head == tail {
        head := null;
        tail := null;
        spine := [];
      } else {
        ChainTail(head, spine);
        assert Values(spine[1..]) == Values(spine)[1..];
        head := head.next;
        spine := spine[1..];
      }
    }

    /** The rest of `deleteByValue` on a non-empty list: the first node after
        the head that holds `value` is unlinked, and `tail` moves back to its
        predecessor when it was the last; `NoSuchElementException` is thrown
        when there is none. */
    method DeleteLaterOccurrence(value: char) returns (o: Outcome)
      requires Valid() && head != null
      modifies this, spine
      ensures Valid()
      ensures (o, Contents()) == DeleteLater(old(Contents()), value)
    {
      ghost var s := spine;
      var pred, temp, k := FindLater(head, spine, value);
      if temp != null {
        UnlinkNext(pred, temp, k);
        return Pass;
      } else {
        return Fail(NoSuchElement);
      }
    }

    /** The unlinking step of `deleteByValue`: `pred.next = temp.next`, and
        `tail` moves back to `pred` when `temp` was the last node. */
    method UnlinkNext(pred: Node, temp: Node, ghost k: nat)
      requires Valid() && k + 1 < |spine| && pred == spine[k] && temp == spine[k + 1]
      modifies this, pred
      ensures Valid() && Contents() == RemoveAt(old(Contents()), k + 1)
    {
      ghost var s := spine;
      EndsAfterRemove(s, k);
      ValuesRemove(s, k + 1);
      spine := s[..k + 1] + s[k + 2..];
      UnlinkAfter(pred, temp, s, k);
      if pred.next == null {
        tail := pred;
      }
    }

    /** `deleteLast`: unlinks the last node, emptying a one-node list, or
        throws `NoSuchElementException` on an empty list. */
    method DeleteLast() returns (o: Outcome)
      requires Valid()
      modifies this, spine
      ensures Valid()
      ensures o == if old(Contents()) == [] then Fail(NoSuchElement) else Pass
      ensures o.Pass? ==> Contents() == old(Contents())[..|old(Contents())| - 1]
      ensures o.Fail? ==> Contents() == old(Contents())
    {
      if IsEmpty() {
        return Fail(NoSuchElement);
      }
      SingleNode();
      if head == tail {
        head := null;
        tail := null;
        spine := [];
      } else {
        ghost var s := spine;
        var pred, k := FindBeforeTail();
        CutAfter(pred, s, k);
        tail := pred;
        spine := s[..k + 1];
        assert Values(spine) == Values(s)[..k + 1];
      }
      return Pass;
    }

    /** The walk of `deleteLast`: `pred` runs from `head` until its successor
        is `tail`. */
    method FindBeforeTail() returns (pred: Node, ghost k: nat)
      requires Valid() && |spine| >= 2
      ensures k == |spine| - 2 && pred == spine[k]
    {
      pred := head;
      k := 0;
      while pred.next != tail
        invariant 0 <= k < |spine| - 1 && pred == spine[k]
        decreases |spine| - k
      {
        assert pred.next == spine[k + 1];
        pred := pred.next;
        k := k + 1;
      }
      assert pred.next == spine[k + 1];
    }
  }
}
