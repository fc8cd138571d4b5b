/** Adding, inserting, detaching and replacing children: pointer surgery on a sibling list as edits of a sequence. */
module ListEdits {
  import opened Nodes
  import opened Lists
  import opened Allocator
  import opened Deletion

  function FirstNode(ns: seq<Node>): Node? {
    if ns == [] then null else ns[0]
  }

  /** `ns` are the children of `parent`, doubly linked, with null at both ends. */
  ghost predicate Listed(parent: Node, ns: seq<Node>)
    reads parent`child, ns`next, ns`prev
  {
    parent.child == FirstNode(ns) && Linked(ns) && Distinct(ns)
  }

  /** An item that stands in no list. */
  ghost predicate Single(item: Node)
    reads item`next, item`prev
  {
    item.next == null && item.prev == null
  }

  /** The links that appending to `ns` does not write are null already. */
  ghost predicate Appendable(item: Node, ns: seq<Node>)
    reads item`next, item`prev
  {
    item.next == null && (ns == [] ==> item.prev == null)
  }

  /** The position that counting an index down stops at: negative indices mean the first child. */
  function Position(which: int): nat {
    if which <= 0 then 0 else which
  }

  function InsertAt<T>(ns: seq<T>, which: int, x: T): seq<T> {
    var i := Position(which);
    if i >= |ns| then ns + [x] else ns[..i] + [x] + ns[i..]
  }

  function RemoveAt<T>(ns: seq<T>, which: int): seq<T> {
    var i := Position(which);
    if i >= |ns| then ns else ns[..i] + ns[i + 1..]
  }

  function UpdateAt<T>(ns: seq<T>, which: int, x: T): seq<T> {
    var i := Position(which);
    if i >= |ns| then ns else ns[i := x]
  }

  /** Indices inside the list: what is inserted, removed or replaced, and where the others stand. */
  lemma EditsInside<T>(ns: seq<T>, i: nat, x: T)
    requires i < |ns|
    ensures
      var s := InsertAt(ns, i, x);
      && |s| == |ns| + 1 && s[i] == x
      && (forall k :: 0 <= k < i ==> s[k] == ns[k]) && (forall k :: i <= k < |ns| ==> s[k + 1] == ns[k])
    ensures
      var s := RemoveAt(ns, i);
      && |s| == |ns| - 1
      && (forall k :: 0 <= k < i ==> s[k] == ns[k]) && (forall k :: i < k < |ns| ==> s[k - 1] == ns[k])
    ensures UpdateAt(ns, i, x) == ns[i := x]
  {
  }

  /** Other indices: a negative one means the first child, and past the end there is only appending. */
  lemma EditsOutside<T>(ns: seq<T>, which: int, x: T)
    ensures which < 0 ==>
      InsertAt(ns, which, x) == InsertAt(ns, 0, x) && RemoveAt(ns, which) == RemoveAt(ns, 0)
      && UpdateAt(ns, which, x) == UpdateAt(ns, 0, x)
    ensures which >= |ns| ==>
      InsertAt(ns, which, x) == ns + [x] && RemoveAt(ns, which) == ns && UpdateAt(ns, which, x) == ns
    ensures Position(which) == if which < 0 then 0 else which
  {
  }

  lemma NextOf(ns: seq<Node>, i: nat)
    requires Linked(ns) && i < |ns|
    ensures ns[i].next == FirstNode(ns[i + 1..])
    ensures ns[i].prev == if i > 0 then ns[i - 1] else null
  {
  }

  /** Walks from the first child and counts the index down, to the child at that index or past the end. */
  method Seek(parent: Node, which: int, ghost ns: seq<Node>) returns (c: Node?)
    requires Listed(parent, ns)
    ensures c == if Position(which) < |ns| then ns[Position(which)] else null
  {
    hide Linked, Distinct;
    c := parent.child;
    var left := which;
    ghost var i := 0;
    assert ns[0..] == ns;
    while c != null && left > 0
      invariant i <= |ns| && c == FirstNode(ns[i..])
      invariant i + Position(left) == Position(which) && (left < 0 ==> i == 0)
      decreases |ns| - i
    {
      NextOf(ns, i);
      c := c.next;
      left := left - 1;
      i := i + 1;
    }
  }

  /** cJSON_GetArraySize */
  method GetArraySize(parent: Node, ghost ns: seq<Node>) returns (i: nat)
    requires Listed(parent, ns)
    ensures i == |ns|
  {
    hide Linked, Distinct;
    var c := parent.child;
    i := 0;
    assert ns[0..] == ns;
    while c != null
      invariant i <= |ns| && c == FirstNode(ns[i..])
      decreases |ns| - i
    {
      NextOf(ns, i);
      i := i + 1;
      c := c.next;
    }
  }

  /** Walks to the last child. */
  method SeekLast(first: Node, ghost ns: seq<Node>) returns (c: Node)
    requires Linked(ns) && ns != [] && first == ns[0]
    ensures c == ns[|ns| - 1]
  {
    c := first;
    ghost var i := 0;
    while c.next != null
      invariant i < |ns| && c == ns[i]
      decreases |ns| - i
    {
      NextOf(ns, i);
      c := c.next;
      i := i + 1;
    }
    NextOf(ns, i);
  }

  ghost function Self(item: Node?): set<Node> {
    if item == null then {} else {item}
  }

  /**
   * cJSON_AddItemToArray: a list again exactly when the links that it does not write are null; a null item changes
   * nothing.
   */
  method AddItemToArray(parent: Node, item: Node?, ghost ns: seq<Node>)
    requires Listed(parent, ns) && (item != null ==> item !in ns && item != parent)
    modifies parent`child, ns`next, Self(item)`prev
    ensures item == null ==> Listed(parent, ns)
    ensures item != null ==> (Listed(parent, ns + [item]) <==> old(Appendable(item, ns)))
  {
    if item == null {
      return;
    }
    hide Linked, Distinct;
    DistinctAppend(ns, item);
    if parent.child == null {
      parent.child := item;
      OnlyItem(item);
    } else {
      var c := SeekLast(parent.child, ns);
      SuffixObject(c, item, ns);
      OpenEnd(ns, item);
    }
  }

  lemma DistinctAppend(ns: seq<Node>, x: Node)
    requires Distinct(ns) && x !in ns
    ensures Distinct(ns + [x])
  {
  }

  lemma OnlyItem(x: Node)
    ensures Linked([x]) <==> x.next == null && x.prev == null
  {
    assert [x][0].next == x.next && [x][0].prev == x.prev;
  }

  lemma OpenEnd(ns: seq<Node>, x: Node)
    ensures Linked(ns + [x]) ==> x.next == null
  {
    assert (ns + [x])[|ns|] == x;
  }

  /** cJSON_InsertItemInArray: in front of a child every link is written; at the end it is adding. */
  method InsertItemInArray(parent: Node, which: int, newitem: Node, ghost ns: seq<Node>)
    requires Listed(parent, ns) && newitem !in ns && newitem != parent
    modifies parent`child, ns`next, ns`prev, newitem`next, newitem`prev
    ensures
      Listed(parent, InsertAt(ns, which, newitem)) <==> Position(which) < |ns| || old(Appendable(newitem, ns))
  {
    hide Linked, Distinct;
    var c := Seek(parent, which, ns);
    if c == null {
      AddItemToArray(parent, newitem, ns);
      assert InsertAt(ns, which, newitem) == ns + [newitem];
      return;
    }
    InsertBefore(parent, c, newitem, Position(which), ns);
  }

  lemma OnlyAt(ns: seq<Node>, i: nat)
    requires Distinct(ns) && i < |ns|
    ensures forall k :: 0 <= k < |ns| && k != i ==> ns[k] != ns[i]
  {
  }

  lemma DistinctInsert(ns: seq<Node>, i: nat, x: Node)
    requires Distinct(ns) && x !in ns && i <= |ns|
    ensures Distinct(ns[..i] + [x] + ns[i..])
  {
  }

  /** Both links of the new item, then the two links to it. */
  method InsertBefore(parent: Node, c: Node, newitem: Node, ghost i: nat, ghost ns: seq<Node>)
    requires Listed(parent, ns) && newitem !in ns && i < |ns| && c == ns[i]
    modifies parent`child, ns`next, ns`prev, newitem`next, newitem`prev
    ensures Listed(parent, ns[..i] + [newitem] + ns[i..])
  {
    hide Distinct;
    DistinctInsert(ns, i, newitem);
    OnlyAt(ns, i);
    if i > 0 {
      OnlyAt(ns, i - 1);
    }
    NextOf(ns, i);
    newitem.next := c;
    newitem.prev := c.prev;
    c.prev := newitem;
    if c == parent.child {
      parent.child := newitem;
    } else {
      newitem.prev.next := newitem;
    }
    Inserted(ns, i, newitem);
  }

  /** What the four stores leave behind is the linked list with the new item in it. */
  lemma Inserted(ns: seq<Node>, i: nat, x: Node)
    requires i < |ns| && x.next == ns[i] && x.prev == if i > 0 then ns[i - 1] else null
    requires forall k {:trigger ns[k].next} :: 0 <= k < |ns| ==>
      ns[k].next == if k + 1 == i then x else if k + 1 < |ns| then ns[k + 1] else null
    requires forall k {:trigger ns[k].prev} :: 0 <= k < |ns| ==>
      ns[k].prev == if k == i then x else if k > 0 then ns[k - 1] else null
    ensures Linked(ns[..i] + [x] + ns[i..])
  {
    var all := ns[..i] + [x] + ns[i..];
    forall k | 0 <= k < |all|
      ensures all[k].next == if k + 1 < |all| then all[k + 1] else null
      ensures all[k].prev == if k > 0 then all[k - 1] else null
    {
      if k != i {
        var j := if k < i then k else k - 1;
        assert all[k] == ns[j];
        assert ns[j].next == ns[j].next && ns[j].prev == ns[j].prev;
      }
    }
  }

  /** cJSON_DetachItemFromArray */
  method DetachItemFromArray(parent: Node, which: int, ghost ns: seq<Node>) returns (c: Node?)
    requires Listed(parent, ns)
    modifies parent`child, ns`next, ns`prev
    ensures c == if Position(which) < |ns| then ns[Position(which)] else null
    ensures Listed(parent, RemoveAt(ns, which)) && (c != null ==> Single(c))
  {
    hide Linked, Distinct;
    c := Seek(parent, which, ns);
    if c != null {
      Unlink(parent, c, Position(which), ns);
    }
  }

  method Unlink(parent: Node, c: Node, ghost i: nat, ghost ns: seq<Node>)
    requires Listed(parent, ns) && i < |ns| && c == ns[i]
    modifies parent`child, ns`next, ns`prev
    ensures Listed(parent, ns[..i] + ns[i + 1..]) && Single(c)
  {
    hide Distinct;
    DistinctRemove(ns, i);
    OnlyAt(ns, i);
    if i > 0 {
      OnlyAt(ns, i - 1);
    }
    if i + 1 < |ns| {
      OnlyAt(ns, i + 1);
    }
    NextOf(ns, i);
    if c.prev != null {
      c.prev.next := c.next;
    }
    if c.next != null {
      c.next.prev := c.prev;
    }
    if c == parent.child {
      parent.child := c.next;
    }
    c.prev, c.next := null, null;
    Removed(ns, i);
  }

  lemma DistinctRemove(ns: seq<Node>, i: nat)
    requires Distinct(ns) && i < |ns|
    ensures Distinct(ns[..i] + ns[i + 1..])
  {
  }

  /** What the stores leave behind is the linked list without the item. */
  lemma Removed(ns: seq<Node>, i: nat)
    requires i < |ns|
    requires forall k {:trigger ns[k].next} :: 0 <= k < |ns| && k != i ==>
      var j := if k + 1 == i then i + 1 else k + 1; ns[k].next == if j < |ns| then ns[j] else null
    requires forall k {:trigger ns[k].prev} :: 0 <= k < |ns| && k != i ==>
      var j := if k == i + 1 then i - 1 else k - 1; ns[k].prev == if j >= 0 then ns[j] else null
    ensures Linked(ns[..i] + ns[i + 1..])
  {
    var rest := ns[..i] + ns[i + 1..];
    forall k | 0 <= k < |rest|
      ensures rest[k].next == if k + 1 < |rest| then rest[k + 1] else null
      ensures rest[k].prev == if k > 0 then rest[k - 1] else null
    {
      var j := if k < i then k else k + 1;
      assert rest[k] == ns[j];
      assert ns[j].next == ns[j].next && ns[j].prev == ns[j].prev;
    }
  }

  /** The links of cJSON_ReplaceItemInArray; the old item is left single. Past the end no link changes. */
  method Relink(parent: Node, which: int, newitem: Node, ghost ns: seq<Node>) returns (c: Node?)
    requires Listed(parent, ns) && newitem !in ns
    modifies parent`child, ns`next, ns`prev, newitem`next, newitem`prev
    ensures c == if Position(which) < |ns| then ns[Position(which)] else null
    ensures Listed(parent, UpdateAt(ns, which, newitem)) && (c != null ==> Single(c))
    ensures c == null ==> newitem.next == old(newitem.next) && newitem.prev == old(newitem.prev)
  {
    hide Linked, Distinct;
    c := Seek(parent, which, ns);
    if c != null {
      TakeOver(parent, c, newitem, Position(which), ns);
    }
  }

  method TakeOver(parent: Node, c: Node, newitem: Node, ghost i: nat, ghost ns: seq<Node>)
    requires Listed(parent, ns) && newitem !in ns && i < |ns| && c == ns[i]
    modifies parent`child, ns`next, ns`prev, newitem`next, newitem`prev
    ensures Listed(parent, ns[i := newitem]) && Single(c)
  {
    NextOf(ns, i);
    newitem.next := c.next;
    newitem.prev := c.prev;
    if newitem.next != null {
      newitem.next.prev := newitem;
    }
    if c == parent.child {
      parent.child := newitem;
    } else {
      newitem.prev.next := newitem;
    }
    c.next, c.prev := null, null;
  }

  // Edits that undo each other

  /** Detaching a child and inserting it at the same index gives the list back. */
  method Reinsert(parent: Node, which: int, ghost ns: seq<Node>)
    requires Listed(parent, ns) && parent !in ns
    modifies parent`child, ns`next, ns`prev
    ensures Listed(parent, ns)
  {
    hide Listed, InsertAt, RemoveAt;
    DetachInsert(ns, which);
    TakenOut(parent, ns, which);
    var c := DetachItemFromArray(parent, which, ns);
    if c != null {
      InsertItemInArray(parent, which, c, RemoveAt(ns, which));
    }
  }

  lemma DetachInsert(ns: seq<Node>, which: int)
    ensures Position(which) < |ns| ==> InsertAt(RemoveAt(ns, which), which, ns[Position(which)]) == ns
    ensures Position(which) >= |ns| ==> RemoveAt(ns, which) == ns
  {
    hide Position;
    var i := Position(which);
    if i < |ns| {
      var a, b := ns[..i], ns[i + 1..];
      assert (a + b)[..i] == a && (a + b)[i..] == b;
      assert a + [ns[i]] + b == ns;
      assert b == [] ==> a + b + [ns[i]] == ns;
    }
  }

  lemma TakenOut(parent: Node, ns: seq<Node>, which: int)
    requires Listed(parent, ns)
    ensures forall k :: 0 <= k < |RemoveAt(ns, which)| ==> RemoveAt(ns, which)[k] in ns
    ensures Position(which) < |ns| ==> ns[Position(which)] !in RemoveAt(ns, which)
  {
    hide Linked;
  }

  /**
   * Inserting and then detaching at one index gives the list back exactly when the index is no more than its length.
   */
  lemma InsertDetach(ns: seq<Node>, which: int, x: Node)
    ensures RemoveAt(InsertAt(ns, which, x), which) == ns <==> Position(which) <= |ns|
  {
    var i := Position(which);
    if i < |ns| {
      assert ns[..i] + ns[i..] == ns;
    }
  }

  // The same edits on the trees that the children root

  /** The children of `parent` are the valid, separate trees `ts`. */
  ghost predicate Family(parent: Node, ts: seq<Tree>, deep: bool)
    reads parent`child, ObjectsOf(ts, deep)
  {
    && parent.child == First(ts) && IsList(ts, deep) && SeparateAll(ts, deep) && parent !in ObjectsOf(ts, deep)
  }

  /** Changing sibling links and the parent's first child leaves the validity of a child alone. */
  ghost predicate Clear(t: Tree, parent: Node, ns: seq<Node>, deep: bool) {
    && parent != t.node && Away(parent, t, deep)
    && forall j {:trigger ns[j]} :: 0 <= j < |ns| ==> Away(ns[j], t, deep)
  }

  lemma FamilyClear(parent: Node, ts: seq<Tree>, deep: bool, k: nat)
    requires SeparateAll(ts, deep) && parent !in ObjectsOf(ts, deep) && k < |ts|
    ensures Clear(ts[k], parent, NodesOf(ts), deep)
  {
    hide Objects, ObjectsOf, Away, Separate;
    var ns := NodesOf(ts);
    Within(ts, k, deep);
    OutsideIsAway(parent, ts[k], deep);
    forall j | 0 <= j < |ns|
      ensures Away(ns[j], ts[k], deep)
    {
      SeparateItem(ts, k, deep);
      Parts(ts[j], deep);
      if j == k {
        RootIsAway(ts[k], deep);
      } else {
        SeparatePair(ts, if j < k then j else k, if j < k then k else j, deep);
        OutsideIsAway(ns[j], ts[k], deep);
      }
    }
  }

  lemma FamilyParts(parent: Node, ts: seq<Tree>, deep: bool)
    requires Family(parent, ts, deep)
    ensures Listed(parent, NodesOf(ts)) && SeparateAll(ts, deep) && parent !in ObjectsOf(ts, deep)
    ensures forall k :: 0 <= k < |ts| ==> Valid(ts[k], deep) && Clear(ts[k], parent, NodesOf(ts), deep)
  {
    hide Linked, Distinct, Valid, Separate, SeparateAll, Objects, ObjectsOf, Clear;
    ValidItems(ts, deep);
    DistinctNodes(ts, deep);
    forall k | 0 <= k < |ts|
      ensures Clear(ts[k], parent, NodesOf(ts), deep)
    {
      FamilyClear(parent, ts, deep, k);
    }
  }

  /** cJSON_DetachItemFromArray, on trees. */
  method DetachTree(parent: Node, which: int, ghost ts: seq<Tree>, ghost deep: bool) returns (c: Node?)
    requires Family(parent, ts, deep)
    modifies parent`child, NodesOf(ts)`next, NodesOf(ts)`prev
    ensures c == if Position(which) < |ts| then ts[Position(which)].node else null
    ensures Listed(parent, RemoveAt(NodesOf(ts), which)) && (c != null ==> Single(c))
    ensures forall k :: 0 <= k < |ts| ==> Valid(ts[k], deep)
  {
    hide Linked, Distinct, Valid, Separate, SeparateAll, Objects, ObjectsOf, Listed, Family, RemoveAt, Position, Single;
    FamilyParts(parent, ts, deep);
    assert allocated(ObjectsOf(ts, deep));
    c := DetachItemFromArray(parent, which, NodesOf(ts));
    forall k | 0 <= k < |ts|
      ensures Valid(ts[k], deep)
    {
      Within(ts, k, deep);
      Parts(ts[k], deep);
      assert Clear(ts[k], parent, NodesOf(ts), deep);
      assert old(Valid(ts[k], deep));
    }
  }

  lemma NodesRemove(ts: seq<Tree>, which: int)
    ensures NodesOf(RemoveAt(ts, which)) == RemoveAt(NodesOf(ts), which)
  {
    hide NodesOf;
  }

  lemma NodesUpdate(ts: seq<Tree>, which: int, t: Tree)
    ensures NodesOf(UpdateAt(ts, which, t)) == UpdateAt(NodesOf(ts), which, t.node)
  {
    hide NodesOf;
  }

  lemma NodesInsert(ts: seq<Tree>, which: int, t: Tree)
    ensures NodesOf(InsertAt(ts, which, t)) == InsertAt(NodesOf(ts), which, t.node)
  {
    hide NodesOf;
  }

  lemma FamilyFrom(parent: Node, ts: seq<Tree>, deep: bool)
    requires Listed(parent, NodesOf(ts)) && SeparateAll(ts, deep) && parent !in ObjectsOf(ts, deep)
    requires forall k :: 0 <= k < |ts| ==> Valid(ts[k], deep)
    ensures Family(parent, ts, deep)
  {
    hide Linked, Distinct, Valid, SeparateAll, ObjectsOf;
    assert ValidAll(ts, deep);
  }

  /** A child taken out of the family leaves a family, and shares nothing with it. */
  lemma Without(ts: seq<Tree>, which: int, deep: bool)
    requires SeparateAll(ts, deep) && Position(which) < |ts|
    ensures
      var rest, t := RemoveAt(ts, which), ts[Position(which)];
      && SeparateAll(rest, deep) && Separate(t, deep) && Objects(t, deep) !! ObjectsOf(rest, deep)
      && ObjectsOf(rest, deep) + Objects(t, deep) == ObjectsOf(ts, deep)
  {
    hide Objects, Separate, SeparateAll, ObjectsOf;
    var i := Position(which);
    SeparateItem(ts, i, deep);
    Remaining(ts, i, deep);
    ObjectsJoin(ts[..i], ts[i + 1..], deep);
    ObjectsJoin(ts[..i], [ts[i]] + ts[i + 1..], deep);
    assert ts[..i] + ([ts[i]] + ts[i + 1..]) == ts;
    Uncons([ts[i]] + ts[i + 1..], deep);
    assert ([ts[i]] + ts[i + 1..])[1..] == ts[i + 1..];
  }

  lemma ObjectsJoin(a: seq<Tree>, b: seq<Tree>, deep: bool)
    ensures ObjectsOf(a + b, deep) == ObjectsOf(a, deep) + ObjectsOf(b, deep)
  {
    hide Objects;
    var all := a + b;
    forall i | 0 <= i < |a|
      ensures Objects(a[i], deep) <= ObjectsOf(all, deep)
    {
      assert all[i] == a[i];
    }
    forall i | 0 <= i < |b|
      ensures Objects(b[i], deep) <= ObjectsOf(all, deep)
    {
      assert all[|a| + i] == b[i];
    }
  }

  lemma Remaining(ts: seq<Tree>, i: nat, deep: bool)
    requires SeparateAll(ts, deep) && i < |ts|
    ensures SeparateAll(ts[..i] + ts[i + 1..], deep) && Objects(ts[i], deep) !! ObjectsOf(ts[..i] + ts[i + 1..], deep)
  {
    hide Objects, Separate;
    var rest := ts[..i] + ts[i + 1..];
    assert forall k {:trigger rest[k]} :: 0 <= k < |rest| ==> rest[k] == ts[if k < i then k else k + 1];
    forall j, k | 0 <= j < k < |rest|
      ensures Objects(rest[j], deep) !! Objects(rest[k], deep)
    {
      SeparatePair(ts, if j < i then j else j + 1, if k < i then k else k + 1, deep);
    }
    forall k | 0 <= k < |rest|
      ensures Objects(ts[i], deep) !! Objects(rest[k], deep)
    {
      if k < i {
        SeparatePair(ts, k, i, deep);
      } else {
        SeparatePair(ts, i, k + 1, deep);
      }
    }
  }

  /** cJSON_DeleteItemFromArray frees what the child owns, and nothing else. */
  method DeleteItemFromArray(h: Heap, parent: Node, which: int, ghost ts: seq<Tree>)
    requires Family(parent, ts, false) && ObjectsOf(ts, false) <= h.live
    modifies h, parent`child, ObjectsOf(ts, false)
    ensures Family(parent, RemoveAt(ts, which), false)
    ensures h.live == old(h.live) - if Position(which) < |ts| then Objects(ts[Position(which)], false) else {}
  {
    hide Linked, Distinct, Valid, Separate, SeparateAll, Objects, ObjectsOf, Listed, Family;
    FamilyParts(parent, ts, false);
    ListNodes(ts, false);
    ghost var i, rest := Position(which), RemoveAt(ts, which);
    NodesRemove(ts, which);
    HeapApartAll(h, ts, false);
    var c := DetachTree(parent, which, ts, false);
    if c != null {
      Without(ts, which, false);
      FamilyFrom(parent, rest, false);
      Alone(ts[i], false);
      Delete(h, c, [ts[i]]);
    } else {
      FamilyFrom(parent, ts, false);
    }
  }

  /** A single tree is a list of one. */
  lemma Alone(t: Tree, deep: bool)
    requires Valid(t, deep) && Separate(t, deep) && Single(t.node)
    ensures Linked(NodesOf([t])) && Chained([t]) && ValidAll([t], deep) && SeparateAll([t], deep)
    ensures ObjectsOf([t], deep) == Objects(t, deep)
  {
    hide Valid, Separate, Objects;
    Uncons([t], deep);
    NothingOf(deep);
  }

  /** A whole tree that has nothing to do with the family. */
  ghost predicate Stranger(t: Tree, parent: Node, ts: seq<Tree>, deep: bool)
    reads Objects(t, deep)
  {
    && (Parts(t, deep); Valid(t, deep)) && Separate(t, deep)
    && parent !in Objects(t, deep) && Objects(t, deep) !! ObjectsOf(ts, deep)
  }

  /** Linking a stranger into the family touches nothing that the validity of any of them depends on. */
  lemma StrangerClear(t: Tree, parent: Node, ts: seq<Tree>, deep: bool)
    requires Family(parent, ts, deep) && Stranger(t, parent, ts, deep)
    ensures Clear(t, parent, NodesOf(ts), deep) && Away(t.node, t, deep) && t.node !in NodesOf(ts) && t.node != parent
    ensures forall k :: 0 <= k < |ts| ==> Away(t.node, ts[k], deep)
  {
    hide Objects, ObjectsOf, Valid, Separate, SeparateAll, Away;
    Parts(t, deep);
    RootIsAway(t, deep);
    OutsideIsAway(parent, t, deep);
    ListNodes(ts, deep);
    forall k | 0 <= k < |ts|
      ensures Away(t.node, ts[k], deep) && Away(ts[k].node, t, deep)
    {
      Within(ts, k, deep);
      OutsideIsAway(t.node, ts[k], deep);
      OutsideIsAway(ts[k].node, t, deep);
    }
  }

  /** cJSON_AddItemToArray, on trees. */
  method AddTree(parent: Node, item: Node?, ghost ts: seq<Tree>, ghost t: Tree, ghost deep: bool)
    requires Family(parent, ts, deep)
    requires item != null ==> item == t.node && Stranger(t, parent, ts, deep) && Appendable(item, NodesOf(ts))
    modifies parent`child, NodesOf(ts)`next, Self(item)`prev
    ensures Family(parent, if item == null then ts else ts + [t], deep)
  {
    hide Linked, Distinct, Valid, Separate, SeparateAll, Objects, ObjectsOf, Listed, Family, Stranger, InsertAt;
    if item == null {
      return;
    }
    FamilyParts(parent, ts, deep);
    StrangerParts(t, parent, ts, deep);
    StrangerClear(t, parent, ts, deep);
    assert allocated(ObjectsOf(ts, deep)) && allocated(Objects(t, deep));
    AddItemToArray(parent, item, NodesOf(ts));
    forall k | 0 <= k < |ts|
      ensures Valid(ts[k], deep)
    {
      Within(ts, k, deep);
      Parts(ts[k], deep);
      assert Clear(ts[k], parent, NodesOf(ts), deep) && Away(t.node, ts[k], deep);
      assert old(Valid(ts[k], deep));
    }
    Parts(t, deep);
    NodesAppend(ts, t);
    With(ts, |ts|, t, parent, deep);
    AtTheEnd(ts, t);
    FamilyFrom(parent, ts + [t], deep);
  }

  lemma AtTheEnd(ts: seq<Tree>, t: Tree)
    ensures InsertAt(ts, |ts|, t) == ts + [t]
  {
  }

  /** cJSON_InsertItemInArray, on trees. */
  method InsertTree(parent: Node, which: int, newitem: Node, ghost ts: seq<Tree>, ghost t: Tree, ghost deep: bool)
    requires Family(parent, ts, deep) && newitem == t.node && Stranger(t, parent, ts, deep)
    requires Position(which) < |ts| || Appendable(newitem, NodesOf(ts))
    modifies parent`child, NodesOf(ts)`next, NodesOf(ts)`prev, newitem`next, newitem`prev
    ensures Family(parent, InsertAt(ts, which, t), deep)
  {
    hide Linked, Distinct, Valid, Separate, SeparateAll, Objects, ObjectsOf, Listed, Family, Stranger, InsertAt, Single;
    FamilyParts(parent, ts, deep);
    StrangerParts(t, parent, ts, deep);
    StrangerClear(t, parent, ts, deep);
    assert allocated(ObjectsOf(ts, deep)) && allocated(Objects(t, deep));
    InsertItemInArray(parent, which, newitem, NodesOf(ts));
    forall k | 0 <= k < |ts|
      ensures Valid(ts[k], deep)
    {
      Within(ts, k, deep);
      Parts(ts[k], deep);
      assert Clear(ts[k], parent, NodesOf(ts), deep) && Away(t.node, ts[k], deep);
      assert old(Valid(ts[k], deep));
    }
    Parts(t, deep);
    NodesInsert(ts, which, t);
    With(ts, which, t, parent, deep);
    FamilyFrom(parent, InsertAt(ts, which, t), deep);
  }

  lemma StrangerParts(t: Tree, parent: Node, ts: seq<Tree>, deep: bool)
    requires Stranger(t, parent, ts, deep)
    ensures Valid(t, deep) && Separate(t, deep) && parent !in Objects(t, deep)
    ensures Objects(t, deep) !! ObjectsOf(ts, deep)
  {
    hide Valid, Separate, Objects, ObjectsOf;
  }

  lemma With(ts: seq<Tree>, which: int, t: Tree, parent: Node, deep: bool)
    requires SeparateAll(ts, deep) && Separate(t, deep) && Objects(t, deep) !! ObjectsOf(ts, deep)
    requires parent !in ObjectsOf(ts, deep) && parent !in Objects(t, deep)
    requires forall k :: 0 <= k < |ts| ==> Valid(ts[k], deep)
    requires Valid(t, deep)
    ensures
      var all := InsertAt(ts, which, t);
      && SeparateAll(all, deep) && parent !in ObjectsOf(all, deep)
      && forall k :: 0 <= k < |all| ==> Valid(all[k], deep)
  {
    hide Objects, Separate, Valid, SeparateAll, ObjectsOf;
    var i := if Position(which) >= |ts| then |ts| else Position(which);
    var a, b := ts[..i], ts[i..];
    assert InsertAt(ts, which, t) == a + ([t] + b) && a + b == ts;
    ObjectsJoin(a, b, deep);
    SeparateHalves(ts, i, deep);
    Uncons([t] + b, deep);
    assert ([t] + b)[1..] == b;
    ObjectsJoin(a, [t] + b, deep);
    SeparateInsert(a, b, t, deep);
  }

  lemma SeparateHalves(ts: seq<Tree>, i: nat, deep: bool)
    requires SeparateAll(ts, deep) && i <= |ts|
    ensures SeparateAll(ts[..i], deep) && SeparateAll(ts[i..], deep)
      && ObjectsOf(ts[..i], deep) !! ObjectsOf(ts[i..], deep)
  {
    hide Objects, Separate;
  }

  lemma SeparateInsert(a: seq<Tree>, b: seq<Tree>, t: Tree, deep: bool)
    requires SeparateAll(a, deep) && SeparateAll(b, deep) && Separate(t, deep)
    requires ObjectsOf(a, deep) !! ObjectsOf(b, deep) && Objects(t, deep) !! ObjectsOf(a, deep) + ObjectsOf(b, deep)
    ensures SeparateAll(a + ([t] + b), deep)
  {
    hide Objects, Separate, ObjectsOf;
    var all := a + ([t] + b);
    var m := |a|;
    assert forall k {:trigger all[k]} :: 0 <= k < |all| ==>
      all[k] == if k < m then a[k] else if k == m then t else b[k - m - 1];
    forall j, k | 0 <= j < k < |all|
      ensures Objects(all[j], deep) !! Objects(all[k], deep)
    {
      if j < m { Within(a, j, deep); }
      if k < m { SeparatePair(a, j, k, deep); }
      if k > m { Within(b, k - m - 1, deep); }
      if j > m { SeparatePair(b, j - m - 1, k - m - 1, deep); }
    }
  }

  lemma StrangerFrom(t: Tree, parent: Node, ts: seq<Tree>, deep: bool)
    requires Valid(t, deep) && Separate(t, deep) && parent !in Objects(t, deep)
    requires Objects(t, deep) !! ObjectsOf(ts, deep)
    ensures Stranger(t, parent, ts, deep)
  {
    hide Valid, Separate, Objects, ObjectsOf;
  }

  /** The links of cJSON_ReplaceItemInArray, on trees. */
  method RelinkTree(parent: Node, which: int, newitem: Node, ghost ts: seq<Tree>, ghost t: Tree, ghost deep: bool)
    returns (c: Node?)
    requires Family(parent, ts, deep) && newitem == t.node && Stranger(t, parent, ts, deep)
    modifies parent`child, NodesOf(ts)`next, NodesOf(ts)`prev, newitem`next, newitem`prev
    ensures c == if Position(which) < |ts| then ts[Position(which)].node else null
    ensures Listed(parent, NodesOf(UpdateAt(ts, which, t))) && (c != null ==> Single(c))
    ensures Valid(t, deep) && forall k :: 0 <= k < |ts| ==> Valid(ts[k], deep)
    ensures c == null ==> newitem.next == old(newitem.next) && newitem.prev == old(newitem.prev)
  {
    hide Linked, Distinct, Valid, Separate, SeparateAll, Objects;
    hide ObjectsOf, Listed, Family, Stranger, UpdateAt, Position, Single;
    FamilyParts(parent, ts, deep);
    StrangerParts(t, parent, ts, deep);
    StrangerClear(t, parent, ts, deep);
    assert allocated(ObjectsOf(ts, deep)) && allocated(Objects(t, deep));
    NodesUpdate(ts, which, t);
    c := Relink(parent, which, newitem, NodesOf(ts));
    forall k | 0 <= k < |ts|
      ensures Valid(ts[k], deep)
    {
      Within(ts, k, deep);
      Parts(ts[k], deep);
      assert Clear(ts[k], parent, NodesOf(ts), deep) && Away(t.node, ts[k], deep);
      assert old(Valid(ts[k], deep));
    }
    Parts(t, deep);
  }

  lemma Instead(ts: seq<Tree>, which: int, t: Tree, parent: Node, deep: bool)
    requires SeparateAll(ts, deep) && Separate(t, deep) && Objects(t, deep) !! ObjectsOf(ts, deep)
    requires parent !in ObjectsOf(ts, deep) && parent !in Objects(t, deep)
    ensures
      var all := UpdateAt(ts, which, t);
      && SeparateAll(all, deep) && parent !in ObjectsOf(all, deep)
      && (Position(which) < |ts| ==> Objects(ts[Position(which)], deep) !! ObjectsOf(all, deep))
  {
    hide Objects, Separate, SeparateAll, ObjectsOf;
    var i := Position(which);
    if i < |ts| {
      var a, b := ts[..i], ts[i + 1..];
      assert UpdateAt(ts, which, t) == a + ([t] + b);
      assert RemoveAt(ts, which) == a + b;
      Without(ts, which, deep);
      SeparateHalves(a + b, i, deep);
      assert (a + b)[..i] == a && (a + b)[i..] == b;
      ObjectsJoin(a, b, deep);
      ObjectsJoin(a, [t] + b, deep);
      Uncons([t] + b, deep);
      assert ([t] + b)[1..] == b;
      SeparateInsert(a, b, t, deep);
    }
  }

  /**
   * cJSON_ReplaceItemInArray: the new item takes the place of the old one, which is deleted; past the end nothing
   * happens.
   */
  method ReplaceItemInArray(h: Heap, parent: Node, which: int, newitem: Node, ghost ts: seq<Tree>, ghost t: Tree)
    requires Family(parent, ts, false) && newitem == t.node && Stranger(t, parent, ts, false)
    requires ObjectsOf(ts, false) <= h.live
    modifies h, parent`child, ObjectsOf(ts, false), newitem`next, newitem`prev
    ensures Family(parent, UpdateAt(ts, which, t), false)
    ensures h.live == old(h.live) - if Position(which) < |ts| then Objects(ts[Position(which)], false) else {}
    ensures Position(which) >= |ts| ==>
      newitem.next == old(newitem.next) && newitem.prev == old(newitem.prev) && Stranger(t, parent, ts, false)
  {
    hide Linked, Distinct, Valid, Separate, SeparateAll, Objects, ObjectsOf, Listed, Family, Stranger;
    FamilyParts(parent, ts, false);
    StrangerParts(t, parent, ts, false);
    Instead(ts, which, t, parent, false);
    ListNodes(ts, false);
    HeapApartAll(h, ts, false);
    ghost var i, all := Position(which), UpdateAt(ts, which, t);
    HeapApartAll(h, all, false);
    assert allocated(ObjectsOf(all, false));
    var c := RelinkTree(parent, which, newitem, ts, t, false);
    FamilyFrom(parent, all, false);
    if c != null {
      SeparateItem(ts, i, false);
      Within(ts, i, false);
      Alone(ts[i], false);
      Delete(h, c, [ts[i]]);
    } else {
      StrangerFrom(t, parent, ts, false);
    }
  }
}
