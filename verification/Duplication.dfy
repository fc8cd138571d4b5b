/** cJSON_Duplicate builds a deep copy that shares nothing with its source. */
module Duplication {
  import opened Bytes
  import opened Nodes
  import opened Allocator
  import opened Lists
  import opened CStrings

  ghost predicate SameText(x: CString, y: CString) {
    x.CString? == y.CString? && (x.CString? ==> x.chars == y.chars)
  }

  /** Node for node the same contents, the reference flag cleared; `recurse` says whether children were copied. */
  ghost predicate CopyOf(c: Tree, t: Tree, recurse: bool) {
    && c.kind == t.kind && !c.isReference && c.valueInt == t.valueInt && c.value == t.value
    && SameText(c.str, t.str) && SameText(c.name, t.name)
    && if recurse then |c.kids| == |t.kids| && forall i :: 0 <= i < |t.kids| ==> CopyOf(c.kids[i], t.kids[i], true)
       else c.kids == []
  }

  method CopyText(h: Heap, p: array?<byte>, ghost x: CString) returns (q: array?<byte>, ghost y: CString)
    requires p == Pointer(x) && ValidText(x)
    modifies h
    ensures q == Pointer(y) && ValidText(y) && SameText(y, x) && fresh(Buffers(y))
    ensures h.live == old(h.live) + Buffers(y)
  {
    if p == null {
      q, y := null, NullString;
    } else {
      var b := Strdup(h, p, x.chars);
      q, y := b, CString(b, x.chars);
    }
  }

  /** Both strings, copied into the new node. */
  method CopyTexts(h: Heap, item: Node, newitem: Node, ghost t: Tree) returns (ghost str: CString, ghost name: CString)
    requires item.valueString == Pointer(t.str) && ValidText(t.str) && item.name == Pointer(t.name) && ValidText(t.name)
    requires newitem != item && newitem !in Buffers(t.str) + Buffers(t.name)
    modifies h, newitem`valueString, newitem`name
    ensures newitem.valueString == Pointer(str) && ValidText(str) && SameText(str, t.str) && fresh(Buffers(str))
    ensures newitem.name == Pointer(name) && ValidText(name) && SameText(name, t.name) && fresh(Buffers(name))
    ensures Buffers(str) !! Buffers(name) && h.live == old(h.live) + Buffers(str) + Buffers(name)
  {
    hide Holds;
    var p, q;
    p, str := CopyText(h, item.valueString, t.str);
    newitem.valueString := p;
    q, name := CopyText(h, item.name, t.name);
    newitem.name := q;
  }

  /** The new node with its strings, before any child. */
  method CopyItem(h: Heap, item: Node, ghost t: Tree) returns (newitem: Node, ghost c: Tree)
    requires item == t.node && Valid(t, true)
    modifies h
    ensures newitem == c.node && newitem.next == null && newitem.prev == null && newitem.child == null
    ensures ValidHead(c, true) && Separate(c, true) && CopyOf(c, t, false)
    ensures fresh(Objects(c, true)) && h.live == old(h.live) + Objects(c, true)
  {
    hide Valid, ValidHead, Objects, ObjectsOf, Separate, Holds, CopyOf;
    HeadFields(t, true);
    HeapApart(h, t, true);
    Parts(t, true);
    assert allocated(Buffers(t.str)) && allocated(Buffers(t.name));
    newitem := h.NewItem();
    newitem.kind, newitem.valueInt, newitem.valueDouble := item.kind, item.valueInt, item.valueDouble;
    ghost var str, name := CopyTexts(h, item, newitem, t);
    c := Tree(newitem, t.kind, false, t.valueInt, t.value, str, name, []);
    BareTree(c, true);
    BareCopy(c, t);
  }

  lemma BareCopy(c: Tree, t: Tree)
    requires c == Tree(c.node, t.kind, false, t.valueInt, t.value, c.str, c.name, [])
    requires SameText(c.str, t.str) && SameText(c.name, t.name) && ValidText(c.str) && ValidText(c.name)
    requires c.node.kind == c.kind && !c.node.isReference && c.node.valueInt == c.valueInt
      && c.node.valueDouble == c.value
    requires c.node.valueString == Pointer(c.str) && c.node.name == Pointer(c.name)
    ensures ValidHead(c, true) && CopyOf(c, t, false)
  {
  }

  lemma BareTree(c: Tree, deep: bool)
    requires c.kids == [] && !c.isReference
    ensures Objects(c, deep) == {c.node} + Buffers(c.str) + Buffers(c.name)
    ensures Separate(c, deep)
      <==> c.node !in Buffers(c.str) && c.node !in Buffers(c.name) && Buffers(c.str) !! Buffers(c.name)
  {
    NothingOf(deep);
  }

  /** cJSON_Duplicate; a null item gives null. */
  method Duplicate(h: Heap, item: Node?, recurse: bool, ghost t: Tree) returns (newitem: Node?, ghost c: Tree)
    requires item != null ==> item == t.node && Valid(t, true)
    modifies h
    ensures newitem == null <==> item == null
    ensures item == null ==> h.live == old(h.live)
    ensures item != null ==>
      && newitem == c.node && newitem.next == null && newitem.prev == null
      && Valid(c, true) && Separate(c, true) && CopyOf(c, t, recurse)
      && fresh(Objects(c, true)) && h.live == old(h.live) + Objects(c, true)
    decreases t, 3
  {
    hide Valid, Separate, Objects, CopyOf;
    c := t;
    if item == null {
      return null, c;
    }
    newitem, c := DuplicateItem(h, item, recurse, t);
  }

  method DuplicateItem(h: Heap, item: Node, recurse: bool, ghost t: Tree) returns (newitem: Node, ghost c: Tree)
    requires item == t.node && Valid(t, true)
    modifies h
    ensures newitem == c.node && newitem.next == null && newitem.prev == null
    ensures Valid(c, true) && Separate(c, true) && CopyOf(c, t, recurse)
    ensures fresh(Objects(c, true)) && h.live == old(h.live) + Objects(c, true)
    decreases t, 2
  {
    hide Valid, Separate, Objects, ObjectsOf, ValidHead;
    Parts(t, true);
    HeapApart(h, t, true);
    assert allocated(Objects(t, true));
    newitem, c := CopyItem(h, item, t);
    Parts(c, true);
    ghost var bare := c;
    ghost var ks: seq<Tree> := [];
    if recurse {
      BareTree(bare, true);
      ks := CopyKids(h, newitem, item, t);
      c := bare.(kids := ks);
    } else {
      EmptyList(true);
    }
    Assemble(c, bare, t, recurse);
  }

  lemma EmptyList(deep: bool)
    ensures IsList([], deep) && SeparateAll([], deep) && ObjectsOf([], deep) == {}
  {
  }

  /** A bare copy together with copies of the children is a copy of the whole. */
  lemma Assemble(c: Tree, bare: Tree, t: Tree, recurse: bool)
    requires c == bare.(kids := c.kids) && bare.kids == [] && Separate(bare, true) && CopyOf(bare, t, false)
    requires ValidHead(bare, true) && c.node.child == First(c.kids) && IsList(c.kids, true) && SeparateAll(c.kids, true)
    requires Objects(bare, true) !! ObjectsOf(c.kids, true)
    requires if recurse then Copies(c.kids, t.kids) && |c.kids| == |t.kids| else c.kids == []
    ensures Valid(c, true) && Separate(c, true) && CopyOf(c, t, recurse)
    ensures Objects(c, true) == Objects(bare, true) + ObjectsOf(c.kids, true)
  {
    hide ObjectsOf, IsList, SeparateAll;
    NothingOf(true);
  }

  ghost predicate Copies(ks: seq<Tree>, ts: seq<Tree>) {
    |ks| <= |ts| && forall j :: 0 <= j < |ks| ==> CopyOf(ks[j], ts[j], true)
  }

  /** Between two turns of the loop over the source's children: `ks` are the copies so far. */
  ghost predicate Copying(newitem: Node, nptr: Node?, cptr: Node?, ks: seq<Tree>, t: Tree)
    reads newitem`child, ObjectsOf(ks, true), Objects(t, true)
  {
    && Collecting(newitem, nptr, ks, true)
    && (Parts(t, true); Valid(t, true))
    && Objects(t, true) !! ObjectsOf(ks, true) && newitem !in Objects(t, true)
    && Copies(ks, t.kids) && cptr == First(t.kids[|ks|..])
  }

  lemma CopyingNothing(newitem: Node, t: Tree)
    requires Valid(t, true) && newitem.child == null && newitem !in Objects(t, true)
    ensures Copying(newitem, null, t.node.child, [], t) && ObjectsOf([], true) == {}
  {
    CollectingNothing(newitem, true);
  }

  /** Walks the `next` chain of the source's children. */
  method CopyKids(h: Heap, newitem: Node, item: Node, ghost t: Tree) returns (ghost ks: seq<Tree>)
    requires item == t.node && Valid(t, true) && newitem !in Objects(t, true) && newitem.child == null
    modifies h, newitem`child
    ensures newitem.child == First(ks) && IsList(ks, true) && SeparateAll(ks, true)
    ensures |ks| == |t.kids| && Copies(ks, t.kids)
    ensures fresh(ObjectsOf(ks, true)) && h.live == old(h.live) + ObjectsOf(ks, true)
    decreases t, 1
  {
    hide Copying, Objects, ObjectsOf, Valid;
    CopyingNothing(newitem, t);
    ks := [];
    var cptr, nptr := item.child, null;
    while cptr != null
      invariant Copying(newitem, nptr, cptr, ks, t) && |ks| <= |t.kids|
      invariant fresh(ObjectsOf(ks, true)) && h.live == old(h.live) + ObjectsOf(ks, true)
      decreases |t.kids| - |ks|
    {
      ghost var done := ObjectsOf(ks, true);
      nptr, cptr, ks := CopyNext(h, newitem, nptr, cptr, ks, t);
      assert forall o :: o in ObjectsOf(ks, true) ==> o in done || o in ObjectsOf(ks, true) - done;
    }
    Copied(newitem, nptr, ks, t);
  }

  lemma Copied(newitem: Node, nptr: Node?, ks: seq<Tree>, t: Tree)
    requires Copying(newitem, nptr, null, ks, t)
    ensures newitem.child == First(ks) && IsList(ks, true) && SeparateAll(ks, true)
    ensures |ks| == |t.kids| && Copies(ks, t.kids)
  {
    hide Objects, ObjectsOf, Valid, IsList, SeparateAll;
  }

  /** One turn: the child at `cptr` is copied and linked after the copies so far. */
  method CopyNext(h: Heap, newitem: Node, nptr: Node?, cptr: Node, ghost ks: seq<Tree>, ghost t: Tree)
    returns (last: Node?, next: Node?, ghost all: seq<Tree>)
    requires Copying(newitem, nptr, cptr, ks, t)
    modifies h, newitem`child, ObjectsOf(ks, true)
    ensures Copying(newitem, last, next, all, t) && |ks| < |all| <= |t.kids|
    ensures ObjectsOf(ks, true) <= ObjectsOf(all, true) && fresh(ObjectsOf(all, true) - ObjectsOf(ks, true))
    ensures h.live == old(h.live) + (ObjectsOf(all, true) - ObjectsOf(ks, true))
    decreases t, 0
  {
    hide Valid, Objects, ObjectsOf, Separate, CopyOf, Collecting;
    KidAt(t, |ks|);
    HeapApart(h, t, true);
    HeapApartAll(h, ks, true);
    Parts(t, true);
    assert allocated(Objects(t, true)) && allocated(ObjectsOf(ks, true));
    ghost var k;
    last, k := DuplicateItem(h, cptr, true, t.kids[|ks|]);
    Parts(k, true);
    AppendKid(newitem, nptr, last, ks, k, true);
    all := ks + [k];
    next := cptr.next;
  }

  /** What the new node holds, whether its children were copied or not. */
  lemma CopyHolds(c: Tree, t: Tree, recurse: bool)
    requires CopyOf(c, t, recurse) && Valid(c, true) && Valid(t, true)
    ensures c.node.kind == t.node.kind && !c.node.isReference
    ensures c.node.valueInt == t.node.valueInt && c.node.valueDouble == t.node.valueDouble
    ensures (c.node.valueString == null <==> t.node.valueString == null) && CharsOf(c.str) == CharsOf(t.str)
    ensures (c.node.name == null <==> t.node.name == null) && CharsOf(c.name) == CharsOf(t.name)
    ensures c.node.child == null <==> !recurse || t.node.child == null
  {
    hide Objects, ObjectsOf, IsList;
    HeadFields(c, true);
    HeadFields(t, true);
  }

  /** The copy has the same JSON value as its source, and no reference anywhere in it. */
  lemma {:induction false} CopyMeansTheSame(c: Tree, t: Tree)
    requires CopyOf(c, t, true)
    ensures ToJson(c) == ToJson(t) && Owning(c)
    decreases t
  {
    forall i | 0 <= i < |t.kids|
      ensures ToJson(c.kids[i]) == ToJson(t.kids[i]) && CharsOf(c.kids[i].name) == CharsOf(t.kids[i].name)
      ensures Owning(c.kids[i])
    {
      CopyMeansTheSame(c.kids[i], t.kids[i]);
    }
    assert ItemsOf(c.kids) == ItemsOf(t.kids);
    assert MembersOf(c.kids) == MembersOf(t.kids);
  }
}
