/** A singly linked list of characters reached from `head`, with the
    deletion operations both as the source writes them and as evidently
    intended. */
module LinkedList {
  import opened Java
  import opened ListNode

  /** `deleteByValue` as written: a matching head is unlinked and then the
      search for `v` still runs over the rest, so a second occurrence is
      deleted too, its absence throws although the head is already gone, and
      a list left empty throws `NullPointerException` at `head.next`. */
  function DeleteByValueAsWritten(s: seq<char>, v: char): (Outcome, seq<char>)
  {
    if s == [] then (Fail(NoSuchElement), s)
    else
      var t := if s[0] == v then s[1..] else s;
      if t == [] then (Fail(NullPointer), t) else DeleteLater(t, v)
  }

  /** `deleteLast` as written: a one-node list is emptied and then
      dereferenced, throwing `NullPointerException`. */
  function DeleteLastAsWritten(s: seq<char>): (Outcome, seq<char>)
  {
    if s == [] then (Fail(NoSuchElement), s)
    else if |s| == 1 then (Fail(NullPointer), [])
    else (Pass, s[..|s| - 1])
  }

  /** `deleteLast` as intended: the last element goes, and only an empty
      list throws. */
  function DeleteLastIntended(s: seq<char>): (Outcome, seq<char>)
  {
    if s == [] then (Fail(NoSuchElement), s) else (Pass, s[..|s| - 1])
  }

  /** Whenever the head does not hold the value, the written `deleteByValue`
      behaves as intended. */
  lemma DeleteByValueAgrees(s: seq<char>, v: char)
    requires s == [] || s[0] != v
    ensures DeleteByValueAsWritten(s, v) == DeleteByValueIntended(s, v)
  {
    if s != [] {
      DeleteLaterMatches(s, v);
    }
  }

  /** Where the written `deleteByValue` departs from the intended one: on
      the one-node list holding the value it throws `NullPointerException`
      instead of emptying the list. */
  lemma DeleteByValueOnlyNode()
    ensures DeleteByValueAsWritten(['A'], 'A') == (Fail(NullPointer), [])
    ensures DeleteByValueIntended(['A'], 'A') == (Pass, [])
  {
    assert FirstIndex(['A'], 'A') == 0;
  }

  /** A head match with no later occurrence: the head is gone and yet
      `NoSuchElementException` is thrown. */
  lemma DeleteByValueHeadOnly()
    ensures DeleteByValueAsWritten(['A', 'B'], 'A') == (Fail(NoSuchElement), ['B'])
    ensures DeleteByValueIntended(['A', 'B'], 'A') == (Pass, ['B'])
  {
    assert ['A', 'B'][1..] == ['B'] && ['B'][1..] == [];
    assert FirstIndex(['A', 'B'], 'A') == 0;
    assert RemoveAt(['A', 'B'], 0) == ['B'];
  }

  /** A head match with a later occurrence: both are deleted. */
  lemma DeleteByValueHeadAndLater()
    ensures DeleteByValueAsWritten(['A', 'B', 'A'], 'A') == (Pass, ['B'])
    ensures DeleteByValueIntended(['A', 'B', 'A'], 'A') == (Pass, ['B', 'A'])
  {
    assert ['A', 'B', 'A'][1..] == ['B', 'A'] && ['B', 'A'][1..] == ['A'];
    assert FirstIndex(['A', 'B', 'A'], 'A') == 0 && FirstIndex(['A'], 'A') == 0;
    assert RemoveAt(['A', 'B', 'A'], 0) == ['B', 'A'] && RemoveAt(['B', 'A'], 1) == ['B'];
  }

  /** On lists of at least two elements the written `deleteLast` behaves as
      intended; on a one-node list it throws where it should succeed. */
  lemma DeleteLastAgrees(s: seq<char>)
    ensures |s| != 1 ==> DeleteLastAsWritten(s) == DeleteLastIntended(s)
    ensures |s| == 1 ==> DeleteLastAsWritten(s) == (Fail(NullPointer), []) && DeleteLastIntended(s) == (Pass, [])
  {
  }

  class LinkedList {
    var head: Node?
    /** The nodes reached from `head`, in order. */
    ghost var spine: seq<Node>

    ghost predicate Valid()
      reads this, spine
    {
      Chain(head, spine)
    }

    /** The list's characters, from the head. */
    ghost function Contents(): seq<char>
      reads this
    {
      Values(spine)
    }

    /** An empty list. */
    constructor ()
      ensures Valid() && Contents() == []
    {
      head := null;
      spine := [];
    }

    /** `isEmpty`. */
    function IsEmpty(): (b: bool)
      reads this, spine
      requires Valid()
      ensures b <==> Contents() == []
    {
      head == null
    }

    /** `insertFirst`: prepends `value`. */
    method InsertFirst(value: char)
      requires Valid()
      modifies this
      ensures Valid() && Contents() == [value] + old(Contents())
    {
      var node := new Node(value);
      node.next := head;
      head := node;
      spine := [node] + spine;
    }

    /** `insertAfter`: inserts `value` right after the first node holding
        `predValue`, or throws `NoSuchElementException` when there is none,
        changing nothing. */
    method InsertAfter(predValue: char, value: char) returns (o: Outcome)
      requires Valid()
      modifies this, spine
      ensures Valid()
      ensures o == if predValue in old(Contents()) then Pass else Fail(NoSuchElement)
      ensures o.Pass? ==> Contents() == InsertAfterAt(old(Contents()), FirstIndex(old(Contents()), predValue), value)
      ensures o.Fail? ==> Contents() == old(Contents())
    {
      ghost var s := spine;
      var pred, k := FindFirst(head, spine, predValue);
      if pred != null {
        var node := LinkAfter(pred, s, k, value);
        spine := s[..k + 1] + [node] + s[k + 1..];
        ValuesInsert(s, k, node);
        return Pass;
      } else {
        return Fail(NoSuchElement);
      }
    }

    /** `insertLast`: appends `value`, walking to the last node first. */
    method InsertLast(value: char)
      requires Valid()
      modifies this, spine
      ensures Valid() && Contents() == old(Contents()) + [value]
    {
      if IsEmpty() {
        head := new Node(value);
        spine := [head];
        return;
      }
      ghost var s := spine;
      var pred, k := FindLast(head, spine);
      var node := LinkAfter(pred, s, k, value);
      assert s[..k + 1] + [node] + s[k + 1..] == s + [node];
      spine := s + [node];
    }

    /** `deleteFirst`: unlinks the head, or throws `NoSuchElementException` on
        an empty list. */
    method DeleteFirst() returns (o: Outcome)
      requires Valid()
      modifies this
      ensures Valid()
      ensures o == if old(Contents()) == [] then Fail(NoSuchElement) else Pass
      ensures o.Pass? ==> Contents() == old(Contents())[1..]
      ensures o.Fail? ==> Contents() == old(Contents())
    {
      if IsEmpty() {
        return Fail(NoSuchElement);
      }
      ChainTail(head, spine);
      head := head.next;
      spine := spine[1..];
      return Pass;
    }

    /** `deleteByValue` as written; see `DeleteByValueAsWritten`. */
    method DeleteByValue(value: char) returns (o: Outcome)
      requires Valid()
      modifies this, spine
      ensures Valid()
      ensures (o, Contents()) == DeleteByValueAsWritten(old(Contents()), value)
    {
      if IsEmpty() {
        return Fail(NoSuchElement);
      }
      if head.data == value {
        ChainTail(head, spine);
        assert Values(spine[1..]) == Values(spine)[1..];
        head := head.next;
        spine := spine[1..];
      }
      if head == null {
        return Fail(NullPointer);
      }
      o := DeleteLaterOccurrence(value);
    }

    /** `deleteByValue` with the evident intent: a matching head is unlinked
        and the operation ends there. */
    method DeleteByValueCorrected(value: char) returns (o: Outcome)
      requires Valid()
      modifies this, spine
      ensures Valid()
      ensures (o, Contents()) == DeleteByValueIntended(old(Contents()), value)
    {
      if IsEmpty() {
        return Fail(NoSuchElement);
      }
      if head.data == value {
        ChainTail(head, spine);
        assert Values(spine[1..]) == Values(spine)[1..];
        head := head.next;
        spine := spine[1..];
        assert old(Contents())[1..] == RemoveAt(old(Contents()), 0);
        return Pass;
      }
      DeleteLaterMatches(Contents(), value);
      o := DeleteLaterOccurrence(value);
    }

    /** The rest of `deleteByValue` on a non-empty list: the first node after
        the head that holds `value` is unlinked, or `NoSuchElementException`
        is thrown when there is none. */
    method DeleteLaterOccurrence(value: char) returns (o: Outcome)
      requires Valid() && head != null
      modifies this, spine
      ensures Valid()
      ensures (o, Contents()) == DeleteLater(old(Contents()), value)
    {
      ghost var s := spine;
      var pred, temp, k := FindLater(head, spine, value);
      if temp != null {
        spine := s[..k + 1] + s[k + 2..];
        UnlinkAfter(pred, temp, s, k);
        ValuesRemove(s, k + 1);
        return Pass;
      } else {
        return Fail(NoSuchElement);
      }
    }

    /** `deleteLast` as written; see `DeleteLastAsWritten`. */
    method DeleteLast() returns (o: Outcome)
      requires Valid()
      modifies this, spine
      ensures Valid()
      ensures (o, Contents()) == DeleteLastAsWritten(old(Contents()))
    {
      if IsEmpty() {
        return Fail(NoSuchElement);
      }
      LinkedEnd(spine, 0);
      if head.next == null {
        head := null;
        spine := [];
      }
      if head == null {
        return Fail(NullPointer);
      }
      DropLast();
      return Pass;
    }

    /** `deleteLast` with the evident intent: a one-node list becomes empty
        and the operation ends there. */
    method DeleteLastCorrected() returns (o: Outcome)
      requires Valid()
      modifies this, spine
      ensures Valid()
      ensures (o, Contents()) == DeleteLastIntended(old(Contents()))
    {
      if IsEmpty() {
        return Fail(NoSuchElement);
      }
      LinkedEnd(spine, 0);
      if head.next == null {
        head := null;
        spine := [];
        return Pass;
      }
      DropLast();
      return Pass;
    }

    /** The rest of `deleteLast` on a list of two or more nodes: the walk to
        the second-last node, which is then cut off from the last. */
    method DropLast()
      requires Valid() && |spine| >= 2
      modifies this, spine
      ensures Valid() && Contents() == old(Contents())[..|old(Contents())| - 1]
    {
      ghost var s := spine;
      var pred, temp, k := FindSecondLast(head, spine);
      CutAfter(pred, s, k);
      spine := s[..k + 1];
      assert Values(spine) == Values(s)[..k + 1];
    }
  }
}
