/** The linked-list demonstration, stated on the contents the list methods
    are proved to produce: each step is the function that step's method
    contract names, applied to the contents before it. */
module LinkedListsMain {
  import opened Java
  import opened ListNode
  import opened LinkedList

  /** `demoLinkedList`: C, B and A inserted at the front give A B C; D at the
      end, E after B, then deleting the first node, E and the last node
      leave B C, with every step succeeding. */
  lemma DemoLinkedList()
    ensures var s1 := ['A', 'B', 'C'];
            var s2 := s1 + ['D'];
            var s3 := InsertAfterAt(s2, FirstIndex(s2, 'B'), 'E');
            var s4 := s3[1..];
            var d5 := DeleteByValueAsWritten(s4, 'E');
            var d6 := DeleteLastAsWritten(d5.1);
            'B' in s2 && s4 != [] && d5.0 == Pass && d6 == (Pass, ['B', 'C'])
  {
    var s2 := ['A', 'B', 'C', 'D'];
    assert ['A', 'B', 'C'] + ['D'] == s2;
    assert FirstIndex(s2, 'B') == 1;
    var s3 := InsertAfterAt(s2, 1, 'E');
    assert s3 == ['A', 'B', 'E', 'C', 'D'];
    var s4 := s3[1..];
    assert FirstIndex(s4[1..], 'E') == 0;
    assert s4 == ['B', 'E', 'C', 'D'];
    assert RemoveAt(s4, 1) == ['B', 'C', 'D'];
    assert DeleteByValueAsWritten(s4, 'E') == (Pass, ['B', 'C', 'D']);
    assert ['B', 'C', 'D'][..2] == ['B', 'C'];
  }

  /** `demoDoubleLinkedList`: 1, 2 and 3 inserted at the front give 3 2 1; 4
      at the end, 5 after 2, then deleting the first node, 5 and the last
      node leave 2 1. */
  lemma DemoDoubleEndedLinkedList()
    ensures var s1 := ['3', '2', '1'];
            var s2 := s1 + ['4'];
            var s3 := InsertAfterAt(s2, FirstIndex(s2, '2'), '5');
            var s4 := s3[1..];
            var d5 := DeleteByValueIntended(s4, '5');
            var d6 := DeleteLastIntended(d5.1);
            '2' in s2 && s4 != [] && d5.0 == Pass && d6 == (Pass, ['2', '1'])
  {
    var s2 := ['3', '2', '1', '4'];
    assert ['3', '2', '1'] + ['4'] == s2;
    assert FirstIndex(s2, '2') == 1;
    var s3 := InsertAfterAt(s2, 1, '5');
    assert s3 == ['3', '2', '5', '1', '4'];
    var s4 := s3[1..];
    assert FirstIndex(s4, '5') == 1;
    assert s4 == ['2', '5', '1', '4'];
    assert RemoveAt(s4, 1) == ['2', '1', '4'];
    assert DeleteByValueIntended(s4, '5') == (Pass, ['2', '1', '4']);
    assert ['2', '1', '4'][..2] == ['2', '1'];
  }
}
