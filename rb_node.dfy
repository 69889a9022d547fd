/** `RbNode`: the fields of a red-black tree node as a record kept in the
    tree's arena, and the sentinel. Every node of one tree is a slot
    number; slot 0 is the tree's `NIL` sentinel, shared by every bottom
    link and by the root's `parent` link. The sentinel is black; it has no
    slot of its own, and its `parent` field is a field of the tree. */
module RbNode {
  /** A node reference: a slot number. */
  type Ref = nat

  /** The sentinel of `createSentinelNode`; as a child it plays the part
      of a null link, and `getLeft`/`getRight` show it as null. */
  const NIL: Ref := 0

  /** The fields `key`, `left`, `right`, `parent` and `isBlack`. */
  datatype RbSlot = RbSlot(key: int, left: Ref, right: Ref, parent: Ref, black: bool)

  /** `new RbNode(key, NIL)`: the three links at the sentinel and
      `isBlack` at its default, false. */
  function NewSlot(key: int): RbSlot
  {
    RbSlot(key, NIL, NIL, NIL, false)
  }

  /** `isRed`. */
  predicate IsRed(s: RbSlot)
  {
    !s.black
  }

  /** `isBlack`. */
  predicate IsBlack(s: RbSlot)
  {
    s.black
  }

  /** `setBlack`. */
  function SetBlack(s: RbSlot): RbSlot
  {
    s.(black := true)
  }

  /** `setRed`. */
  function SetRed(s: RbSlot): RbSlot
  {
    s.(black := false)
  }

  /** A node as the node interface hands it back: null, or a node (the
      sentinel among them). */
  datatype NodeView = Null | NodeAt(ref: Ref)

  /** The key of the sentinel of `createSentinelNode`: the private
      constructor never sets one, so it keeps Java's default. */
  const SentinelKey: int := 0

  /** `getLeft`: the left child, or null when it is the sentinel. */
  function GetLeft(s: RbSlot): NodeView
  {
    if s.left == NIL then Null else NodeAt(s.left)
  }

  /** `getRight`: the right child, or null when it is the sentinel. */
  function GetRight(s: RbSlot): NodeView
  {
    if s.right == NIL then Null else NodeAt(s.right)
  }
}
