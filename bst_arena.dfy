/** Tree nodes as slots of an arena: a node reference is a slot number,
    0 stands for null, and each node's key and child links are a record
    in a map that the tree updates in place, as the Java code updates
    node fields. `Holds` says which tree value the links from a slot
    spell out, with every node used once. */
module BstArena {
  import opened BinaryTree
  import BstUtils
  import opened TreePath

  /** A node reference; `Null` is the null reference. */
  type Ref = nat

  const Null: Ref := 0

  /** The fields of a node that shape the tree. */
  datatype Slot = Slot(key: int, left: Ref, right: Ref)

  /** The slots that spell out `t` from `r`. */
  ghost function Refs(a: map<Ref, Slot>, r: Ref, t: Tree): set<Ref>
    decreases t
  {
    match t
    case Nil => {}
    case Node(l, _, rt) =>
      if r in a then {r} + Refs(a, a[r].left, l) + Refs(a, a[r].right, rt) else {r}
  }

  /** The links from `r` spell out `t`: null for the empty tree, otherwise
      a slot with `t`'s key whose children spell out `t`'s subtrees, no
      slot taking two places. */
  ghost predicate Holds(a: map<Ref, Slot>, r: Ref, t: Tree)
    decreases t
  {
    match t
    case Nil => r == Null
    case Node(l, k, rt) =>
      r != Null && r in a && a[r].key == k &&
      Holds(a, a[r].left, l) && Holds(a, a[r].right, rt) &&
      r !in Refs(a, a[r].left, l) && r !in Refs(a, a[r].right, rt) &&
      Refs(a, a[r].left, l) !! Refs(a, a[r].right, rt)
  }

  /** The slots of a held tree are allocated slots. */
  lemma {:induction false} RefsInside(a: map<Ref, Slot>, r: Ref, t: Tree)
    requires Holds(a, r, t)
    ensures Refs(a, r, t) <= a.Keys && Null !in Refs(a, r, t)
    ensures t.Node? ==> r in Refs(a, r, t)
    decreases t
  {
    match t
    case Nil =>
    case Node(l, _, rt) =>
      RefsInside(a, a[r].left, l);
      RefsInside(a, a[r].right, rt);
  }

  /** A held tree stays held, over the same slots, when none of its slots
      changes. */
  lemma {:induction false} Frame(a: map<Ref, Slot>, b: map<Ref, Slot>, r: Ref, t: Tree)
    requires Holds(a, r, t)
    requires forall q :: q in Refs(a, r, t) ==> q in a && q in b && b[q] == a[q]
    ensures Holds(b, r, t) && Refs(b, r, t) == Refs(a, r, t)
    decreases t
  {
    match t
    case Nil =>
    case Node(l, _, rt) =>
      Frame(a, b, a[r].left, l);
      Frame(a, b, a[r].right, rt);
  }

  /** A slot spells out at most one tree. */
  lemma {:induction false} Unique(a: map<Ref, Slot>, r: Ref, t: Tree, u: Tree)
    requires Holds(a, r, t) && Holds(a, r, u)
    ensures t == u
    decreases t
  {
    match t
    case Nil =>
    case Node(l, _, rt) =>
      Unique(a, a[r].left, l, u.left);
      Unique(a, a[r].right, rt, u.right);
  }

  /** A node built from a slot `r` outside two held, disjoint subtrees
      holds their join. */
  lemma Join(a: map<Ref, Slot>, r: Ref, l: Tree, rt: Tree)
    requires r != Null && r in a
    requires Holds(a, a[r].left, l) && Holds(a, a[r].right, rt)
    requires r !in Refs(a, a[r].left, l) && r !in Refs(a, a[r].right, rt)
    requires Refs(a, a[r].left, l) !! Refs(a, a[r].right, rt)
    ensures Holds(a, r, Node(l, a[r].key, rt))
    ensures Refs(a, r, Node(l, a[r].key, rt)) == {r} + Refs(a, a[r].left, l) + Refs(a, a[r].right, rt)
  {
  }

  /** Every slot of `a` lies below `bound`, which is never null. */
  ghost predicate Below(a: map<Ref, Slot>, bound: Ref)
  {
    Null < bound && forall q :: q in a ==> Null < q < bound
  }

  /** Pointing the left link of `current` at `c`, which holds `u` over
      slots of the old left subtree or slots not allocated in `a`,
      makes `current` hold its node with `u` as left subtree, provided
      every slot outside the old left subtree kept its fields. */
  lemma RelinkLeft(a: map<Ref, Slot>, b: map<Ref, Slot>, current: Ref, t: Tree, c: Ref, u: Tree)
    requires Holds(a, current, t) && t.Node?
    requires Holds(b, c, u)
    requires forall q :: q in Refs(b, c, u) ==> q in Refs(a, a[current].left, t.left) || q !in a
    requires forall q :: q in a && q !in Refs(a, a[current].left, t.left) ==> q in b && b[q] == a[q]
    ensures current in b
    ensures Holds(b[current := b[current].(left := c)], current, Node(u, t.key, t.right))
    ensures Refs(b[current := b[current].(left := c)], current, Node(u, t.key, t.right)) ==
      {current} + Refs(b, c, u) + Refs(a, a[current].right, t.right)
  {
    Kept(a, b, current, a[current].right, t.right, a[current].left, t.left, c, u);
    SetLeft(b, current, c, u, t.right);
  }

  /** The mirror image of `RelinkLeft`. */
  lemma RelinkRight(a: map<Ref, Slot>, b: map<Ref, Slot>, current: Ref, t: Tree, c: Ref, u: Tree)
    requires Holds(a, current, t) && t.Node?
    requires Holds(b, c, u)
    requires forall q :: q in Refs(b, c, u) ==> q in Refs(a, a[current].right, t.right) || q !in a
    requires forall q :: q in a && q !in Refs(a, a[current].right, t.right) ==> q in b && b[q] == a[q]
    ensures current in b
    ensures Holds(b[current := b[current].(right := c)], current, Node(t.left, t.key, u))
    ensures Refs(b[current := b[current].(right := c)], current, Node(t.left, t.key, u)) ==
      {current} + Refs(a, a[current].left, t.left) + Refs(b, c, u)
  {
    Kept(a, b, current, a[current].left, t.left, a[current].right, t.right, c, u);
    SetRight(b, current, c, u, t.left);
  }

  /** The child subtree the recursion did not enter, `kept`, still holds
      in `b`, apart from `current` and from the new subtree at `c`. */
  lemma Kept(a: map<Ref, Slot>, b: map<Ref, Slot>, current: Ref, kept: Ref, keptTree: Tree,
             entered: Ref, enteredTree: Tree, c: Ref, u: Tree)
    requires current in a
    requires Holds(a, kept, keptTree) && Holds(a, entered, enteredTree)
    requires current !in Refs(a, kept, keptTree) && current !in Refs(a, entered, enteredTree)
    requires Refs(a, kept, keptTree) !! Refs(a, entered, enteredTree)
    requires Holds(b, c, u)
    requires forall q :: q in Refs(b, c, u) ==> q in Refs(a, entered, enteredTree) || q !in a
    requires forall q :: q in a && q !in Refs(a, entered, enteredTree) ==> q in b && b[q] == a[q]
    ensures current in b && b[current] == a[current]
    ensures Holds(b, kept, keptTree) && Refs(b, kept, keptTree) == Refs(a, kept, keptTree)
    ensures current !in Refs(b, c, u)
    ensures Refs(b, c, u) !! Refs(a, kept, keptTree)
  {
    RefsInside(a, kept, keptTree);
    Frame(a, b, kept, keptTree);
    RefsInside(b, c, u);
  }

  /** Pointing the left link of `current` at `c`, the right child
      holding `other`, makes `current` hold the node they form. */
  lemma SetLeft(b: map<Ref, Slot>, current: Ref, c: Ref, u: Tree, other: Tree)
    requires current != Null && current in b
    requires Holds(b, c, u) && Holds(b, b[current].right, other)
    requires current !in Refs(b, c, u) && current !in Refs(b, b[current].right, other)
    requires Refs(b, c, u) !! Refs(b, b[current].right, other)
    ensures Holds(b[current := b[current].(left := c)], current, Node(u, b[current].key, other))
    ensures Refs(b[current := b[current].(left := c)], current, Node(u, b[current].key, other)) ==
      {current} + Refs(b, c, u) + Refs(b, b[current].right, other)
  {
    var b' := b[current := b[current].(left := c)];
    RefsInside(b, c, u);
    RefsInside(b, b[current].right, other);
    Frame(b, b', c, u);
    Frame(b, b', b[current].right, other);
    Join(b', current, u, other);
  }

  /** Pointing the right link of `current` at `c`, the left child
      holding `other`, makes `current` hold the node they form. */
  lemma SetRight(b: map<Ref, Slot>, current: Ref, c: Ref, u: Tree, other: Tree)
    requires current != Null && current in b
    requires Holds(b, c, u) && Holds(b, b[current].left, other)
    requires current !in Refs(b, c, u) && current !in Refs(b, b[current].left, other)
    requires Refs(b, c, u) !! Refs(b, b[current].left, other)
    ensures Holds(b[current := b[current].(right := c)], current, Node(other, b[current].key, u))
    ensures Refs(b[current := b[current].(right := c)], current, Node(other, b[current].key, u)) ==
      {current} + Refs(b, b[current].left, other) + Refs(b, c, u)
  {
    var b' := b[current := b[current].(right := c)];
    RefsInside(b, c, u);
    RefsInside(b, b[current].left, other);
    Frame(b, b', c, u);
    Frame(b, b', b[current].left, other);
    Join(b', current, other, u);
  }

  /** Overwriting the key of `current`, whose children hold `l` and `rt`,
      makes it hold the node with the new key over the same slots. */
  lemma Rekey(b: map<Ref, Slot>, current: Ref, m: int, l: Tree, rt: Tree)
    requires current != Null && current in b
    requires Holds(b, b[current].left, l) && Holds(b, b[current].right, rt)
    requires current !in Refs(b, b[current].left, l) && current !in Refs(b, b[current].right, rt)
    requires Refs(b, b[current].left, l) !! Refs(b, b[current].right, rt)
    ensures Holds(b[current := b[current].(key := m)], current, Node(l, m, rt))
    ensures Refs(b[current := b[current].(key := m)], current, Node(l, m, rt)) ==
      {current} + Refs(b, b[current].left, l) + Refs(b, b[current].right, rt)
  {
    var b' := b[current := b[current].(key := m)];
    RefsInside(b, b[current].left, l);
    RefsInside(b, b[current].right, rt);
    Frame(b, b', b[current].left, l);
    Frame(b, b', b[current].right, rt);
    Join(b', current, l, rt);
  }

  /** Pointing both links of `n` at `c1` and `c2`, which hold `u1` and
      `u2`, makes `n` hold the node they form. */
  lemma SetBoth(b: map<Ref, Slot>, n: Ref, c1: Ref, u1: Tree, c2: Ref, u2: Tree)
    requires n != Null && n in b
    requires Holds(b, c1, u1) && Holds(b, c2, u2)
    requires n !in Refs(b, c1, u1) && n !in Refs(b, c2, u2)
    requires Refs(b, c1, u1) !! Refs(b, c2, u2)
    ensures Holds(b[n := Slot(b[n].key, c1, c2)], n, Node(u1, b[n].key, u2))
    ensures Refs(b[n := Slot(b[n].key, c1, c2)], n, Node(u1, b[n].key, u2)) == {n} + Refs(b, c1, u1) + Refs(b, c2, u2)
  {
    var b' := b[n := Slot(b[n].key, c1, c2)];
    RefsInside(b, c1, u1);
    RefsInside(b, c2, u2);
    Frame(b, b', c1, u1);
    Frame(b, b', c2, u2);
    Join(b', n, u1, u2);
  }

  /** The slot a descent along `path` from `r` reaches. */
  ghost function RefAt(a: map<Ref, Slot>, r: Ref, t: Tree, path: seq<Turn>): (x: Ref)
    requires Holds(a, r, t) && ValidPath(t, path)
    ensures Holds(a, x, SubAt(t, path)) && Refs(a, x, SubAt(t, path)) <= Refs(a, r, t)
    decreases |path|
  {
    if path == [] then r
    else
      var p := RefAt(a, r, t, path[..|path| - 1]);
      if path[|path| - 1] then a[p].left else a[p].right
  }

  /** One more turn at the node `path` reaches leads to its child, and
      dropping that turn again leads back to the node. */
  lemma Step(a: map<Ref, Slot>, r: Ref, t: Tree, path: seq<Turn>, d: Turn)
    requires Holds(a, r, t) && ValidPath(t, path) && SubAt(t, path).Node?
    ensures ValidPath(t, path + [d]) && SubAt(t, path + [d]) == Child(SubAt(t, path), d)
    ensures (path + [d])[..|path + [d]| - 1] == path
    ensures RefAt(a, r, t, path) in a
    ensures RefAt(a, r, t, path + [d]) == if d then a[RefAt(a, r, t, path)].left else a[RefAt(a, r, t, path)].right
  {
    assert (path + [d])[..|path|] == path;
  }

  /** When the subtree at `path` is rebuilt in `b` from the same slot,
      over its own slots or fresh ones, and nothing outside it changed,
      `r` holds `t` with that subtree replaced: the links above it are
      untouched. */
  lemma {:induction false} Climb(a: map<Ref, Slot>, b: map<Ref, Slot>, r: Ref, t: Tree, path: seq<Turn>, u: Tree)
    requires Holds(a, r, t) && ValidPath(t, path)
    requires Holds(b, RefAt(a, r, t, path), u)
    requires forall q :: q in Refs(b, RefAt(a, r, t, path), u) ==> q in Refs(a, RefAt(a, r, t, path), SubAt(t, path)) || q !in a
    requires forall q :: q in a && q !in Refs(a, RefAt(a, r, t, path), SubAt(t, path)) ==> q in b && b[q] == a[q]
    ensures Holds(b, r, ReplaceAt(t, path, u))
    ensures Refs(b, r, ReplaceAt(t, path, u)) <= Refs(a, r, t) - Refs(a, RefAt(a, r, t, path), SubAt(t, path)) + Refs(b, RefAt(a, r, t, path), u)
    decreases |path|
  {
    if path != [] {
      var up := path[..|path| - 1];
      var d := path[|path| - 1];
      var p := RefAt(a, r, t, up);
      var s := SubAt(t, up);
      var w := WithChild(s, d, u);
      if d {
        RelinkLeft(a, b, p, s, a[p].left, u);
        assert b[p := b[p].(left := a[p].left)] == b;
      } else {
        RelinkRight(a, b, p, s, a[p].right, u);
        assert b[p := b[p].(right := a[p].right)] == b;
      }
      Climb(a, b, r, t, up, w);
      assert Refs(a, p, s) == {p} + Refs(a, a[p].left, s.left) + Refs(a, a[p].right, s.right);
    }
  }

  /** `parent.left = y` when `d` turns left, `parent.right = y` otherwise. */
  function Link(b: map<Ref, Slot>, parent: Ref, d: Turn, y: Ref): map<Ref, Slot>
    requires parent in b
  {
    if d then b[parent := b[parent].(left := y)] else b[parent := b[parent].(right := y)]
  }

  /** The child link of `p` on side `d`, and the other one. */
  function ChildRef(a: map<Ref, Slot>, p: Ref, d: Turn): Ref
    requires p in a
  {
    if d then a[p].left else a[p].right
  }

  /** `RelinkLeft` or `RelinkRight`, as `d` says. */
  lemma Relink(a: map<Ref, Slot>, b: map<Ref, Slot>, p: Ref, s: Tree, d: Turn, y: Ref, u: Tree)
    requires Holds(a, p, s) && s.Node?
    requires Holds(b, y, u)
    requires forall q :: q in Refs(b, y, u) ==> q in Refs(a, ChildRef(a, p, d), Child(s, d)) || q !in a
    requires forall q :: q in a && q !in Refs(a, ChildRef(a, p, d), Child(s, d)) ==> q in b && b[q] == a[q]
    ensures p in b
    ensures Holds(Link(b, p, d, y), p, WithChild(s, d, u))
    ensures Refs(Link(b, p, d, y), p, WithChild(s, d, u)) == {p} + Refs(b, y, u) + Refs(a, ChildRef(a, p, !d), Child(s, !d))
    ensures Refs(a, p, s) == {p} + Refs(a, ChildRef(a, p, d), Child(s, d)) + Refs(a, ChildRef(a, p, !d), Child(s, !d))
  {
    if d {
      RelinkLeft(a, b, p, s, y, u);
    } else {
      RelinkRight(a, b, p, s, y, u);
    }
  }

  /** When the subtree at `path`, below the node at the end of
      `path` minus its last turn, is rebuilt in `b` at `y`, over its own
      slots or fresh ones, linking `y` under that node makes `r` hold `t`
      with the subtree replaced. */
  lemma Splice(a: map<Ref, Slot>, b: map<Ref, Slot>, r: Ref, t: Tree, path: seq<Turn>, y: Ref, u: Tree)
    requires Holds(a, r, t) && ValidPath(t, path) && path != []
    requires Holds(b, y, u)
    requires forall q :: q in Refs(b, y, u) ==> q in Refs(a, RefAt(a, r, t, path), SubAt(t, path)) || q !in a
    requires forall q :: q in a && q !in Refs(a, RefAt(a, r, t, path), SubAt(t, path)) ==> q in b && b[q] == a[q]
    ensures RefAt(a, r, t, path[..|path| - 1]) in b
    ensures Holds(Link(b, RefAt(a, r, t, path[..|path| - 1]), path[|path| - 1], y), r, ReplaceAt(t, path, u))
    ensures Refs(Link(b, RefAt(a, r, t, path[..|path| - 1]), path[|path| - 1], y), r, ReplaceAt(t, path, u)) <=
      Refs(a, r, t) - Refs(a, RefAt(a, r, t, path), SubAt(t, path)) + Refs(b, y, u)
  {
    var up := path[..|path| - 1];
    var d := path[|path| - 1];
    var p := RefAt(a, r, t, up);
    var s := SubAt(t, up);
    Step(a, r, t, up, d);
    assert path == up + [d];
    Extend(t, up, d, u);
    RefsInside(a, p, s);
    Relink(a, b, p, s, d, y, u);
    var c := Link(b, p, d, y);
    var w := WithChild(s, d, u);
    Climb(a, c, r, t, up, w);
    SwapParts(Refs(a, r, t), Refs(a, p, s), Refs(c, p, w), Refs(a, RefAt(a, r, t, path), SubAt(t, path)), Refs(b, y, u),
      Refs(a, ChildRef(a, p, !d), Child(s, !d)), p, Refs(c, r, ReplaceAt(t, path, u)));
  }

  /** Set algebra for `Splice`: the slots of the whole tree after the
      change are the old ones with the old subtree's traded for the new
      subtree's. */
  lemma SwapParts(all: set<Ref>, before: set<Ref>, after: set<Ref>, gone: set<Ref>, added: set<Ref>, kept: set<Ref>, p: Ref, result: set<Ref>)
    requires result <= all - before + after
    requires before == {p} + gone + kept && after == {p} + added + kept
    requires before <= all && p !in gone && gone !! kept
    ensures result <= all - gone + added
  {
  }

  /** `BstUtils.minValue` on the node at `root`: walks the left links,
      remembering the last key seen, and so finds the leftmost key. */
  method MinValue(a: map<Ref, Slot>, root: Ref, ghost t: Tree) returns (minValue: int)
    requires Holds(a, root, t) && t.Node?
    ensures minValue == BstUtils.Leftmost(t)
  {
    var node := root;
    ghost var sub := t;
    minValue := a[node].key;
    while a[node].left != Null
      invariant Holds(a, node, sub) && sub.Node? && minValue == sub.key
      invariant BstUtils.Leftmost(sub) == BstUtils.Leftmost(t)
      decreases Size(sub)
    {
      minValue := a[a[node].left].key;
      node := a[node].left;
      sub := sub.left;
    }
  }

  /** `BstUtils.searchRecursive` on the node at `current`: the node the
      value-level search finds, null when it finds none. */
  method SearchRecursive(a: map<Ref, Slot>, current: Ref, key: int, ghost t: Tree) returns (r: Ref)
    requires Holds(a, current, t)
    ensures Holds(a, r, BstUtils.SearchRecursive(t, key))
    decreases t
  {
    if current == Null {
      return Null;
    }
    if key == a[current].key {
      return current;
    }
    if key < a[current].key {
      r := SearchRecursive(a, a[current].left, key, t.left);
    } else {
      r := SearchRecursive(a, a[current].right, key, t.right);
    }
  }
}
