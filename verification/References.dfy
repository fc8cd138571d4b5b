/** create_reference: an item that borrows the contents of another. */
module References {
  import opened Nodes
  import opened Allocator
  import opened Deletion
  import opened ListEdits

  /** The tree of a reference to `t`: its contents, no name, the reference flag. */
  function Borrowed(ref: Node, t: Tree): Tree {
    t.(node := ref, isReference := true, name := NullString)
  }

  /** Everything is copied but the name and the links; what the item holds is shared, not owned. */
  method CreateReference(h: Heap, item: Node, ghost t: Tree) returns (ref: Node)
    requires item == t.node && Valid(t, true)
    modifies h
    ensures fresh(ref) && h.live == old(h.live) + {ref} && Single(ref)
    ensures Valid(Borrowed(ref, t), true) && Valid(Borrowed(ref, t), false) && Separate(Borrowed(ref, t), false)
    ensures Objects(Borrowed(ref, t), false) == {ref}
    ensures ToJson(Borrowed(ref, t)) == ToJson(t)
  {
    hide Objects, ObjectsOf, Valid, ValidHead, Holds, ToJson;
    HeapApart(h, t, true);
    Parts(t, true);
    assert allocated(Objects(t, true));
    HeadFields(t, true);
    ref := h.NewItem();
    Refer(ref, item);
    OnlyRoot(Borrowed(ref, t));
    SharesContents(ref, t);
  }

  /** The fields of an item, copied, with neither name nor links and with the reference flag. */
  method Refer(ref: Node, item: Node)
    requires ref != item
    modifies ref
    ensures ref.child == item.child && ref.kind == item.kind && ref.isReference && Single(ref) && ref.name == null
    ensures ref.valueString == item.valueString && ref.valueInt == item.valueInt && ref.valueDouble == item.valueDouble
  {
    ref.next, ref.prev, ref.child := item.next, item.prev, item.child;
    ref.kind, ref.isReference := item.kind, item.isReference;
    ref.valueString, ref.valueInt, ref.valueDouble := item.valueString, item.valueInt, item.valueDouble;
    ref.name := null;
    ref.isReference := true;
    ref.next, ref.prev := null, null;
  }

  /** A node with the same fields stands for the same value. */
  lemma SharesContents(ref: Node, t: Tree)
    requires Valid(t, true) && ref.child == t.node.child && ref.valueString == t.node.valueString
    requires ref.kind == t.kind && ref.isReference && ref.valueInt == t.valueInt && ref.valueDouble == t.value
    requires ref.name == null
    ensures Valid(Borrowed(ref, t), true) && Valid(Borrowed(ref, t), false)
    ensures ToJson(Borrowed(ref, t)) == ToJson(t)
  {
    hide IsList, ObjectsOf, Holds, ItemsOf, MembersOf;
  }

  lemma OnlyRoot(r: Tree)
    requires r.isReference && r.name.NullString?
    ensures Objects(r, false) == {r.node} && Separate(r, false)
  {
  }

  /** Deleting a reference frees the reference alone: what it borrowed is still there. */
  method DeleteReference(h: Heap, ref: Node, ghost t: Tree)
    requires ref !in Objects(t, true) && Valid(t, true) && Single(ref) && ref in h.live
    requires Valid(Borrowed(ref, t), false)
    modifies h, ref
    ensures h.live == old(h.live) - {ref} && Valid(t, true)
  {
    hide Objects, ObjectsOf, Valid, ValidAll, Separate, SeparateAll;
    HeapApart(h, t, true);
    Parts(t, true);
    assert allocated(Objects(t, true));
    OnlyRoot(Borrowed(ref, t));
    Alone(Borrowed(ref, t), false);
    Delete(h, ref, [Borrowed(ref, t)]);
  }
}
