/** The union-find demonstration: ten elements, seven unions, then three
    same-set questions. */
module UnionFindMain {
  import opened Java
  import opened UnionFind

  /** `lab` names the sets of `root`: two elements share a set exactly when
      they carry the same label. */
  ghost predicate Labels(root: seq<int>, lab: seq<int>)
  {
    |lab| == |root| &&
    forall i, j :: 0 <= i < |root| && 0 <= j < |root| ==> (SameSet(root, i, j) <==> lab[i] == lab[j])
  }

  /** The labels after the sets of `x` and `y` are joined: `y`'s label is
      replaced by `x`'s. */
  function Relabel(lab: seq<int>, x: int, y: int): (lab': seq<int>)
    requires 0 <= x < |lab| && 0 <= y < |lab|
    ensures |lab'| == |lab|
    ensures forall i :: 0 <= i < |lab| ==> lab'[i] == if lab[i] == lab[y] then lab[x] else lab[i]
  {
    seq(|lab|, i requires 0 <= i < |lab| => if lab[i] == lab[y] then lab[x] else lab[i])
  }

  /** A union keeps the labels in step with the sets once `y`'s label is
      replaced by `x`'s. */
  lemma LabelsAfterUnion(root: seq<int>, root': seq<int>, lab: seq<int>, x: int, y: int)
    requires Labels(root, lab) && Unioned(root, root', x, y)
    ensures Labels(root', Relabel(lab, x, y))
  {
    var lab' := Relabel(lab, x, y);
    forall i, j | 0 <= i < |root| && 0 <= j < |root|
      ensures SameSet(root', i, j) <==> lab'[i] == lab'[j]
    {
      assert SameSet(root, i, j) <==> lab[i] == lab[j];
      assert SameSet(root, i, x) <==> lab[i] == lab[x];
      assert SameSet(root, j, y) <==> lab[j] == lab[y];
      assert SameSet(root, i, y) <==> lab[i] == lab[y];
      assert SameSet(root, j, x) <==> lab[j] == lab[x];
      assert SameSet(root, x, y) <==> lab[x] == lab[y];
    }
  }

  /** Joins the sets of `x` and `y` in `uf` and returns the labels that name
      the new sets. */
  method UnionLabelled(uf: UnionFind, x: int, y: int, ghost lab: seq<int>) returns (ghost lab': seq<int>)
    requires uf.Valid() && Labels(uf.root, lab) && 0 <= x < uf.parent.Length && 0 <= y < uf.parent.Length
    modifies uf, uf.parent, uf.rank
    ensures uf.Valid()
    ensures lab' == Relabel(lab, x, y) && Labels(uf.root, lab')
  {
    ghost var before := uf.root;
    var o := uf.Union(x, y);
    LabelsAfterUnion(before, uf.root, lab, x, y);
    lab' := Relabel(lab, x, y);
  }

  /** Whether `find(a)` and `find(b)` agree: exactly when `a` and `b`
      share a set. */
  method SameSetQuery(uf: UnionFind, a: int, b: int) returns (same: bool)
    requires uf.Valid() && 0 <= a < uf.parent.Length && 0 <= b < uf.parent.Length
    modifies uf.parent
    ensures uf.Valid() && uf.root == old(uf.root)
    ensures same <==> SameSet(uf.root, a, b)
  {
    var setX := uf.Find(a);
    var setY := uf.Find(b);
    same := setX == setY;
  }

  /** The labels through the scenario's seven unions. */
  lemma DemoRelabels()
    ensures Relabel([0, 1, 2, 3, 4, 5, 6, 7, 8, 9], 0, 1) == [0, 0, 2, 3, 4, 5, 6, 7, 8, 9]
    ensures Relabel([0, 0, 2, 3, 4, 5, 6, 7, 8, 9], 2, 3) == [0, 0, 2, 2, 4, 5, 6, 7, 8, 9]
    ensures Relabel([0, 0, 2, 2, 4, 5, 6, 7, 8, 9], 4, 5) == [0, 0, 2, 2, 4, 4, 6, 7, 8, 9]
    ensures Relabel([0, 0, 2, 2, 4, 4, 6, 7, 8, 9], 6, 7) == [0, 0, 2, 2, 4, 4, 6, 6, 8, 9]
    ensures Relabel([0, 0, 2, 2, 4, 4, 6, 6, 8, 9], 7, 8) == [0, 0, 2, 2, 4, 4, 6, 6, 6, 9]
    ensures Relabel([0, 0, 2, 2, 4, 4, 6, 6, 6, 9], 0, 9) == [0, 0, 2, 2, 4, 4, 6, 6, 6, 0]
    ensures Relabel([0, 0, 2, 2, 4, 4, 6, 6, 6, 0], 5, 9) == [4, 4, 2, 2, 4, 4, 6, 6, 6, 4]
  {
  }

  /** The main scenario: after joining 0-1, 2-3, 4-5, 6-7, 7-8, 0-9 and 5-9,
      elements 2 and 3 share a set, while 0 and 8 do not, nor do 1 and 6. */
  method Demo() returns (same23: bool, same08: bool, same16: bool)
    ensures same23 && !same08 && !same16
  {
    DemoRelabels();
    var uf := new UnionFind(10);
    ghost var lab := uf.root;
    assert lab == [0, 1, 2, 3, 4, 5, 6, 7, 8, 9];
    lab := UnionLabelled(uf, 0, 1, lab);
    lab := UnionLabelled(uf, 2, 3, lab);
    lab := UnionLabelled(uf, 4, 5, lab);
    lab := UnionLabelled(uf, 6, 7, lab);
    lab := UnionLabelled(uf, 7, 8, lab);
    lab := UnionLabelled(uf, 0, 9, lab);
    lab := UnionLabelled(uf, 5, 9, lab);
    assert lab == [4, 4, 2, 2, 4, 4, 6, 6, 6, 4];
    same23 := SameSetQuery(uf, 2, 3);
    same08 := SameSetQuery(uf, 0, 8);
    same16 := SameSetQuery(uf, 1, 6);
  }
}
