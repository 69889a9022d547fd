/** The node shared by the two singly linked lists, the chain shape they keep,
    and the sequence functions their operations are specified by. */
module ListNode {
  import opened Java

  /** A list node; its character never changes. */
  class Node {
    const data: char
    var next: Node?

    constructor (data: char)
      ensures this.data == data && next == null
    {
      this.data := data;
      next := null;
    }
  }

  /** The characters held by a sequence of nodes, in order. */
  ghost function Values(nodes: seq<Node>): (vs: seq<char>)
    ensures |vs| == |nodes| && forall i :: 0 <= i < |nodes| ==> vs[i] == nodes[i].data
  {
    seq(|nodes|, i requires 0 <= i < |nodes| => nodes[i].data)
  }

  /** No node occurs twice in `nodes`. */
  ghost predicate Distinct(nodes: seq<Node>)
  {
    forall i, j :: 0 <= i < j < |nodes| ==> nodes[i] != nodes[j]
  }

  /** Each node of `nodes` but the one at `k` links to the next one. */
  ghost predicate LinkedExcept(nodes: seq<Node>, k: int)
    reads nodes
  {
    forall i :: 0 <= i < |nodes| - 1 && i != k ==> nodes[i].next == nodes[i + 1]
  }

  /** Each node of `nodes` links to the next one, and the last to null. */
  ghost predicate Linked(nodes: seq<Node>)
    reads nodes
  {
    (nodes != [] ==> nodes[|nodes| - 1].next == null) && LinkedExcept(nodes, -1)
  }

  /** `nodes` is the chain reached from `first`: it starts there, is linked
      in order and has no node twice. */
  ghost predicate Chain(first: Node?, nodes: seq<Node>)
    reads nodes
  {
    (first == null <==> nodes == []) &&
    (nodes != [] ==> first == nodes[0]) &&
    Linked(nodes) && Distinct(nodes)
  }

  /** The chain after the first node is the chain from its successor. */
  lemma ChainTail(first: Node?, nodes: seq<Node>)
    requires Chain(first, nodes) && nodes != []
    ensures Chain(nodes[0].next, nodes[1..])
  {
    if |nodes| > 1 {
      assert nodes[0].next == nodes[1];
    }
  }

  /** In a linked chain only the last node links to null. */
  lemma LinkedEnd(nodes: seq<Node>, i: nat)
    requires Linked(nodes) && i < |nodes|
    ensures nodes[i].next == null <==> i == |nodes| - 1
  {
    if i < |nodes| - 1 {
      assert nodes[i].next == nodes[i + 1];
    }
  }

  /** Removing one node keeps the others distinct. */
  lemma DistinctRemove(nodes: seq<Node>, i: nat)
    requires Distinct(nodes) && i < |nodes|
    ensures Distinct(nodes[..i] + nodes[i + 1..])
  {
    var r := nodes[..i] + nodes[i + 1..];
    forall a, b | 0 <= a < b < |r|
      ensures r[a] != r[b]
    {
      var a' := if a < i then a else a + 1;
      var b' := if b < i then b else b + 1;
      assert r[a] == nodes[a'] && r[b] == nodes[b'];
    }
  }

  /** Adding a node that is not yet there keeps the nodes distinct. */
  lemma DistinctInsert(nodes: seq<Node>, i: nat, n: Node)
    requires Distinct(nodes) && i <= |nodes| && n !in nodes
    ensures Distinct(nodes[..i] + [n] + nodes[i..])
  {
    var r := nodes[..i] + [n] + nodes[i..];
    forall a, b | 0 <= a < b < |r|
      ensures r[a] != r[b]
    {
      if a != i && b != i {
        var a' := if a < i then a else a - 1;
        var b' := if b < i then b else b - 1;
        assert r[a] == nodes[a'] && r[b] == nodes[b'];
      } else if a == i {
        assert r[b] == nodes[b - 1];
      } else {
        assert r[a] == nodes[a];
      }
    }
  }

  /** Once `nodes[k]` links past `nodes[k + 1]` and every other link is
      in place, the remaining nodes are linked in order. */
  lemma LinkedAfterUnlink(nodes: seq<Node>, k: nat)
    requires k + 1 < |nodes| && LinkedExcept(nodes, k)
    requires nodes[|nodes| - 1].next == null && nodes[k].next == nodes[k + 1].next
    ensures Linked(nodes[..k + 1] + nodes[k + 2..])
  {
    var r := nodes[..k + 1] + nodes[k + 2..];
    forall i | 0 <= i < |r| - 1
      ensures r[i].next == r[i + 1]
    {
      if i < k {
        assert r[i] == nodes[i] && r[i + 1] == nodes[i + 1];
      } else if i == k {
        assert r[i + 1] == nodes[k + 2];
      } else {
        assert r[i] == nodes[i + 1] && r[i + 1] == nodes[i + 2];
      }
    }
    if k + 2 == |nodes| {
      assert r[|r| - 1] == nodes[k];
    } else {
      assert r[|r| - 1] == nodes[|nodes| - 1];
    }
  }

  /** Once `nodes[k]` links to a new node `n` that links to the old
      successor of `nodes[k]`, and every other link is in place, the chain
      runs through `n`. */
  lemma LinkedAfterInsert(nodes: seq<Node>, k: nat, n: Node)
    requires k < |nodes| && LinkedExcept(nodes, k)
    requires k < |nodes| - 1 ==> nodes[|nodes| - 1].next == null
    requires nodes[k].next == n && n.next == if k + 1 < |nodes| then nodes[k + 1] else null
    ensures Linked(nodes[..k + 1] + [n] + nodes[k + 1..])
  {
    var r := nodes[..k + 1] + [n] + nodes[k + 1..];
    forall i | 0 <= i < |r| - 1
      ensures r[i].next == r[i + 1]
    {
      if i < k {
        assert r[i] == nodes[i] && r[i + 1] == nodes[i + 1];
      } else if i == k {
        assert r[i] == nodes[k] && r[i + 1] == n;
      } else if i == k + 1 {
        assert r[i] == n && r[i + 1] == nodes[k + 1];
      } else {
        assert r[i] == nodes[i - 1] && r[i + 1] == nodes[i];
      }
    }
    if k + 1 == |nodes| {
      assert r[|r| - 1] == n;
    } else {
      assert r[|r| - 1] == nodes[|nodes| - 1];
    }
  }

  /** Once the link out of `nodes[k]` is cut and the links before it are in
      place, the nodes up to `k` form a linked list. */
  lemma LinkedAfterCut(nodes: seq<Node>, k: nat)
    requires k < |nodes| && LinkedExcept(nodes, k) && nodes[k].next == null
    ensures Linked(nodes[..k + 1])
  {
    var r := nodes[..k + 1];
    forall i | 0 <= i < |r| - 1
      ensures r[i].next == r[i + 1]
    {
      assert nodes[i].next == nodes[i + 1];
    }
  }

  /** The position of the first `v` in `s`, or `|s|` when there is none. */
  function FirstIndex(s: seq<char>, v: char): (k: nat)
    ensures k <= |s| && (k < |s| <==> v in s)
    ensures k < |s| ==> s[k] == v
    ensures forall j :: 0 <= j < k ==> s[j] != v
  {
    if s == [] then 0
    else if s[0] == v then 0
    else 1 + FirstIndex(s[1..], v)
  }

  /** `s` without its element at `i`. */
  function RemoveAt(s: seq<char>, i: nat): (r: seq<char>)
    requires i < |s|
    ensures |r| == |s| - 1
    ensures forall j :: 0 <= j < i ==> r[j] == s[j]
    ensures forall j :: i <= j < |r| ==> r[j] == s[j + 1]
  {
    s[..i] + s[i + 1..]
  }

  /** `s` with `v` inserted right after position `i`. */
  function InsertAfterAt(s: seq<char>, i: nat, v: char): (r: seq<char>)
    requires i < |s|
    ensures |r| == |s| + 1 && r[i + 1] == v
    ensures forall j :: 0 <= j <= i ==> r[j] == s[j]
    ensures forall j :: i + 1 < j < |r| ==> r[j] == s[j - 1]
  {
    s[..i + 1] + [v] + s[i + 1..]
  }

  /** The ends once `nodes[k + 1]` is dropped: the first node stays, and the
      last is the old last node, or `nodes[k]` when the dropped one was the
      last. */
  lemma EndsAfterRemove(nodes: seq<Node>, k: nat)
    requires k + 1 < |nodes|
    ensures var r := nodes[..k + 1] + nodes[k + 2..];
      r != [] && r[0] == nodes[0] &&
      r[|r| - 1] == if k + 2 < |nodes| then nodes[|nodes| - 1] else nodes[k]
  {
  }

  /** The ends once `node` is linked in after `nodes[k]`: the first node
      stays, and the last is the old last node, or `node` when it went after
      the last. */
  lemma EndsAfterInsert(nodes: seq<Node>, k: nat, node: Node)
    requires k < |nodes|
    ensures var r := nodes[..k + 1] + [node] + nodes[k + 1..];
      r[0] == nodes[0] &&
      r[|r| - 1] == if k + 1 < |nodes| then nodes[|nodes| - 1] else node
  {
  }

  lemma ValuesRemove(nodes: seq<Node>, i: nat)
    requires i < |nodes|
    ensures Values(nodes[..i] + nodes[i + 1..]) == RemoveAt(Values(nodes), i)
  {
    var r := nodes[..i] + nodes[i + 1..];
    forall j | 0 <= j < |r|
      ensures Values(r)[j] == RemoveAt(Values(nodes), i)[j]
    {
      if j < i {
        assert r[j] == nodes[j];
      } else {
        assert r[j] == nodes[j + 1];
      }
    }
  }

  /** The characters after a node is inserted behind position `k`. */
  lemma ValuesInsert(nodes: seq<Node>, k: nat, n: Node)
    requires k < |nodes|
    ensures Values(nodes[..k + 1] + [n] + nodes[k + 1..]) == InsertAfterAt(Values(nodes), k, n.data)
  {
    var r := nodes[..k + 1] + [n] + nodes[k + 1..];
    forall j | 0 <= j < |r|
      ensures Values(r)[j] == InsertAfterAt(Values(nodes), k, n.data)[j]
    {
      if j <= k {
        assert r[j] == nodes[j];
      } else if j > k + 1 {
        assert r[j] == nodes[j - 1];
      }
    }
  }

  /** The effect of deleting the first occurrence of `v` at position 1 or
      later: the remaining list, or `NoSuchElementException` and no change. */
  function DeleteLater(s: seq<char>, v: char): (Outcome, seq<char>)
    requires s != []
  {
    var k := FirstIndex(s[1..], v);
    if k < |s| - 1 then (Pass, RemoveAt(s, k + 1)) else (Fail(NoSuchElement), s)
  }

  /** `deleteByValue` as intended: the first occurrence of `v` is deleted;
      an empty list or an absent value throws `NoSuchElementException` and
      changes nothing. */
  function DeleteByValueIntended(s: seq<char>, v: char): (Outcome, seq<char>)
  {
    if v in s then (Pass, RemoveAt(s, FirstIndex(s, v))) else (Fail(NoSuchElement), s)
  }

  /** When the first element is not `v`, deleting from position 1 on is
      deleting the first occurrence. */
  lemma DeleteLaterMatches(s: seq<char>, v: char)
    requires s != [] && s[0] != v
    ensures DeleteLater(s, v) == DeleteByValueIntended(s, v)
  {
    assert FirstIndex(s, v) == 1 + FirstIndex(s[1..], v);
    assert v in s <==> v in s[1..];
  }

  /** Removing what was just inserted gives back the original sequence. */
  lemma RemoveInserted(s: seq<char>, i: nat, v: char)
    requires i < |s|
    ensures RemoveAt(InsertAfterAt(s, i, v), i + 1) == s
  {
    var r := RemoveAt(InsertAfterAt(s, i, v), i + 1);
    assert |r| == |s|;
    forall j | 0 <= j < |s|
      ensures r[j] == s[j]
    {
    }
  }

  /** The walk of `insertAfter`: `pred` runs from `head` to the first node
      holding `v`, or off the end. */
  method FindFirst(head: Node?, ghost nodes: seq<Node>, v: char) returns (pred: Node?, ghost k: nat)
    requires Chain(head, nodes)
    ensures k == FirstIndex(Values(nodes), v)
    ensures pred == if k < |nodes| then nodes[k] else null
  {
    pred := head;
    k := 0;
    while pred != null && pred.data != v
      invariant 0 <= k <= |nodes|
      invariant pred == if k < |nodes| then nodes[k] else null
      invariant forall j :: 0 <= j < k ==> nodes[j].data != v
      decreases |nodes| - k
    {
      assert k + 1 < |nodes| ==> nodes[k].next == nodes[k + 1];
      pred := pred.next;
      k := k + 1;
    }
  }

  /** The walk of `insertLast`: `pred` runs from `head` to the last node. */
  method FindLast(head: Node, ghost nodes: seq<Node>) returns (pred: Node, ghost k: nat)
    requires Chain(head, nodes)
    ensures k == |nodes| - 1 && pred == nodes[k]
  {
    pred := head;
    k := 0;
    while pred.next != null
      invariant 0 <= k < |nodes| && pred == nodes[k]
      decreases |nodes| - k
    {
      assert k + 1 < |nodes| ==> nodes[k].next == nodes[k + 1];
      pred := pred.next;
      k := k + 1;
    }
    LinkedEnd(nodes, k);
  }

  /** The walk of `deleteByValue`: `temp` runs from the second node to the
      first later one holding `v`, or off the end, with `pred` one step
      behind. */
  method FindLater(head: Node, ghost nodes: seq<Node>, v: char) returns (pred: Node, temp: Node?, ghost k: nat)
    requires Chain(head, nodes)
    ensures k == FirstIndex(Values(nodes)[1..], v) && k < |nodes| && pred == nodes[k]
    ensures temp == if k + 1 < |nodes| then nodes[k + 1] else null
  {
    pred := head;
    temp := head.next;
    k := 0;
    assert 1 < |nodes| ==> nodes[0].next == nodes[1];
    while temp != null && temp.data != v
      invariant 0 <= k < |nodes| && pred == nodes[k]
      invariant temp == if k + 1 < |nodes| then nodes[k + 1] else null
      invariant forall j :: 1 <= j <= k ==> nodes[j].data != v
      decreases |nodes| - k
    {
      assert k + 2 < |nodes| ==> nodes[k + 1].next == nodes[k + 2];
      pred := pred.next;
      temp := temp.next;
      k := k + 1;
    }
    ghost var rest := Values(nodes)[1..];
    assert forall j :: 0 <= j < k ==> rest[j] != v;
    assert k < |rest| ==> rest[k] == v;
  }

  /** The walk of `deleteLast`: `temp` runs from the second node to the
      last, with `pred` one step behind. */
  method FindSecondLast(head: Node, ghost nodes: seq<Node>) returns (pred: Node, temp: Node, ghost k: nat)
    requires Chain(head, nodes) && |nodes| >= 2
    ensures k == |nodes| - 2 && pred == nodes[k] && temp == nodes[k + 1]
  {
    assert nodes[0].next == nodes[1];
    pred := head;
    temp := head.next;
    k := 0;
    while temp.next != null
      invariant 0 <= k < |nodes| - 1 && pred == nodes[k] && temp == nodes[k + 1]
      decreases |nodes| - k
    {
      assert k + 2 < |nodes| ==> nodes[k + 1].next == nodes[k + 2];
      pred := pred.next;
      temp := temp.next;
      k := k + 1;
    }
    LinkedEnd(nodes, k + 1);
  }

  /** `node.next = pred.next; pred.next = node` for a new node holding
      `value`, where `pred` is `nodes[k]`. */
  method LinkAfter(pred: Node, ghost nodes: seq<Node>, ghost k: nat, value: char) returns (node: Node)
    requires k < |nodes| && pred == nodes[k] && Linked(nodes) && Distinct(nodes)
    modifies pred
    ensures fresh(node) && node.data == value
    ensures Linked(nodes[..k + 1] + [node] + nodes[k + 1..])
    ensures Distinct(nodes[..k + 1] + [node] + nodes[k + 1..])
  {
    node := new Node(value);
    LinkIn(pred, node, nodes, k);
  }

  /** The two link writes of `LinkAfter`, for a node outside the chain. */
  method LinkIn(pred: Node, node: Node, ghost nodes: seq<Node>, ghost k: nat)
    requires k < |nodes| && pred == nodes[k] && Linked(nodes) && Distinct(nodes)
    requires node !in nodes
    modifies pred, node
    ensures Linked(nodes[..k + 1] + [node] + nodes[k + 1..])
    ensures Distinct(nodes[..k + 1] + [node] + nodes[k + 1..])
  {
    assert k + 1 < |nodes| ==> pred.next == nodes[k + 1];
    node.next := pred.next;
    pred.next := node;
    assert LinkedExcept(nodes, k);
    LinkedAfterInsert(nodes, k, node);
    DistinctInsert(nodes, k + 1, node);
  }

  /** `pred.next = temp.next`, where `pred` and `temp` are `nodes[k]` and
      `nodes[k + 1]`: the latter drops out of the chain. */
  method UnlinkAfter(pred: Node, temp: Node, ghost nodes: seq<Node>, ghost k: nat)
    requires k + 1 < |nodes| && pred == nodes[k] && temp == nodes[k + 1]
    requires Linked(nodes) && Distinct(nodes)
    modifies pred
    ensures pred.next == if k + 2 < |nodes| then nodes[k + 2] else null
    ensures Linked(nodes[..k + 1] + nodes[k + 2..]) && Distinct(nodes[..k + 1] + nodes[k + 2..])
  {
    assert k + 2 < |nodes| ==> temp.next == nodes[k + 2];
    pred.next := temp.next;
    assert LinkedExcept(nodes, k);
    LinkedAfterUnlink(nodes, k);
    DistinctRemove(nodes, k + 1);
  }

  /** `pred.next = null`, where `pred` is `nodes[k]`: the chain ends there. */
  method CutAfter(pred: Node, ghost nodes: seq<Node>, ghost k: nat)
    requires k < |nodes| && pred == nodes[k] && Linked(nodes) && Distinct(nodes)
    modifies pred
    ensures Linked(nodes[..k + 1]) && Distinct(nodes[..k + 1])
  {
    pred.next := null;
    assert LinkedExcept(nodes, k);
    LinkedAfterCut(nodes, k);
  }

  /** `printList`: walks the chain from `head`, collecting each node's
      character, and so shows exactly the list's contents. */
  method PrintList(head: Node?, ghost nodes: seq<Node>) returns (shown: seq<char>)
    requires Chain(head, nodes)
    ensures shown == Values(nodes)
  {
    var current := head;
    shown := [];
    ghost var k := 0;
    while current != null
      invariant 0 <= k <= |nodes|
      invariant current == if k < |nodes| then nodes[k] else null
      invariant shown == Values(nodes[..k])
      decreases |nodes| - k
    {
      shown := shown + [current.data];
      current := current.next;
      k := k + 1;
    }
    assert nodes[..k] == nodes;
  }
}
