/** Editing object members by name: the same first match is found, detached, deleted or replaced. */
module ObjectEdits {
  import opened Bytes
  import opened Nodes
  import opened Allocator
  import opened CStrings
  import opened ListEdits
  import opened Names

  /** cJSON_DetachItemFromObject */
  method DetachItemFromObject(parent: Node, text: array?<byte>, ghost key: CString, ghost ts: seq<Tree>,
                              ghost deep: bool)
    returns (c: Node?)
    requires Family(parent, ts, deep) && text == Pointer(key) && ValidText(key)
    modifies parent`child, NodesOf(ts)`next, NodesOf(ts)`prev
    ensures c == if FirstMatch(ts, key) < |ts| then ts[FirstMatch(ts, key)].node else null
    ensures Family(parent, RemoveAt(ts, FirstMatch(ts, key)), deep)
    ensures c != null ==> Single(c) && Valid(ts[FirstMatch(ts, key)], deep)
  {
    hide Compare, FirstMatch, Family, Valid, Linked, ObjectsOf, Objects, SeparateAll, Listed, RemoveAt;
    FamilyParts(parent, ts, deep);
    assert allocated(ObjectsOf(ts, deep));
    var i;
    c, i := Find(parent, text, key, ts, deep);
    NothingRemoved(ts, i);
    if c != null {
      NodesRemove(ts, i);
      Without(ts, i, deep);
      c := DetachTree(parent, i, ts, deep);
      RemainingValid(ts, i, deep);
      FamilyFrom(parent, RemoveAt(ts, i), deep);
    }
  }

  lemma NothingRemoved(ts: seq<Tree>, i: nat)
    ensures i >= |ts| ==> RemoveAt(ts, i) == ts
  {
  }

  lemma RemainingValid(ts: seq<Tree>, i: nat, deep: bool)
    requires i < |ts| && forall k :: 0 <= k < |ts| ==> Valid(ts[k], deep)
    ensures forall k :: 0 <= k < |RemoveAt(ts, i)| ==> Valid(RemoveAt(ts, i)[k], deep)
  {
    hide Valid;
  }

  /** cJSON_DeleteItemFromObject */
  method DeleteItemFromObject(h: Heap, parent: Node, text: array?<byte>, ghost key: CString, ghost ts: seq<Tree>)
    requires Family(parent, ts, false) && text == Pointer(key) && ValidText(key) && ObjectsOf(ts, false) <= h.live
    modifies h, parent`child, ObjectsOf(ts, false)
    ensures Family(parent, RemoveAt(ts, FirstMatch(ts, key)), false)
    ensures h.live == old(h.live) - if FirstMatch(ts, key) < |ts| then Objects(ts[FirstMatch(ts, key)], false) else {}
  {
    hide Compare, FirstMatch, Family, Valid, Linked, ObjectsOf, Objects, SeparateAll, Listed, RemoveAt;
    var c, i := Find(parent, text, key, ts, false);
    NothingRemoved(ts, i);
    if c != null {
      DeleteItemFromArray(h, parent, i, ts);
    }
  }

  /** The part of a tree's validity that does not concern its own fields. */
  ghost predicate Body(t: Tree, deep: bool)
    reads t.node`child, if Borrows(t, deep) then {} else ObjectsOf(t.kids, deep)
  {
    !Borrows(t, deep) ==> t.node.child == First(t.kids) && IsList(t.kids, deep)
  }

  lemma HeadAndBody(t: Tree, deep: bool)
    ensures Valid(t, deep) <==> ValidHead(t, deep) && Body(t, deep)
  {
  }

  lemma RenamedHead(t: Tree, u: Tree, deep: bool)
    requires u == t.(name := u.name) && t.node.name == Pointer(u.name) && ValidText(u.name)
    requires t.node.kind == t.kind && t.node.isReference == t.isReference
    requires t.node.valueInt == t.valueInt && t.node.valueDouble == t.value
    requires !Borrows(t, deep) ==> t.node.valueString == Pointer(t.str) && ValidText(t.str)
    ensures ValidHead(u, deep)
  {
  }

  /** What a tree holds apart from its root and its name. */
  ghost function Below(t: Tree, deep: bool): set<object> {
    if Borrows(t, deep) then {} else Buffers(t.str) + ObjectsOf(t.kids, deep)
  }

  lemma Layers(t: Tree, deep: bool)
    ensures Objects(t, deep) == {t.node} + Buffers(t.name) + Below(t, deep)
    ensures Separate(t, deep) ==>
      t.node !in Buffers(t.name) && t.node !in Below(t, deep) && Buffers(t.name) !! Below(t, deep)
  {
    hide ObjectsOf, SeparateAll;
  }

  lemma SeparateRenamed(t: Tree, u: Tree, deep: bool)
    requires u == t.(name := u.name) && Separate(t, deep)
    requires t.node !in Buffers(u.name) && Buffers(u.name) !! Below(t, deep)
    ensures Separate(u, deep)
  {
    hide ObjectsOf, SeparateAll;
  }

  /** What renaming does to the footprint of a tree. */
  lemma RenamedObjects(t: Tree, u: Tree, deep: bool)
    requires u == t.(name := u.name) && Separate(t, deep) && Buffers(u.name) !! Objects(t, deep)
    ensures Separate(u, deep) && Objects(u, deep) == Objects(t, deep) - Buffers(t.name) + Buffers(u.name)
    ensures t.node !in Buffers(t.name) && (!Borrows(t, deep) ==>
              t.node !in ObjectsOf(t.kids, deep) && Buffers(t.name) !! Buffers(t.str) + ObjectsOf(t.kids, deep))
  {
    hide ObjectsOf, Objects, Separate, Below, Buffers;
    Layers(t, deep);
    Layers(u, deep);
    assert Below(u, deep) == Below(t, deep)
      && (!Borrows(t, deep) ==> Buffers(t.str) + ObjectsOf(t.kids, deep) <= Below(t, deep)) by {
      BelowIs(t, deep);
      BelowIs(u, deep);
    }
    Swapped(t.node, Buffers(t.name), Buffers(u.name), Below(t, deep));
    SeparateRenamed(t, u, deep);
  }

  lemma BelowIs(t: Tree, deep: bool)
    ensures Below(t, deep) == if Borrows(t, deep) then {} else Buffers(t.str) + ObjectsOf(t.kids, deep)
  {
  }

  lemma Swapped(n: object, b: set<object>, c: set<object>, k: set<object>)
    requires n !in b && b !! k
    ensures {n} + c + k == {n} + b + k - b + c
  {
  }

  /**
   * Gives an item a copy of a name. Adding to an object frees the old name first (`release`); replacing in an object
   * does not, so an old name stays allocated.
   */
  method SetName(h: Heap, item: Node, text: array<byte>, release: bool, ghost s: bytes, ghost t: Tree, ghost deep: bool)
    returns (ghost u: Tree)
    requires item == t.node && Valid(t, deep) && Separate(t, deep) && Holds(text, s)
    requires release ==> Buffers(t.name) <= h.live && text !in Buffers(t.name)
    modifies h, item`name, if release then Buffers(t.name) else {}
    ensures u == t.(name := u.name) && u.name.CString? && u.name.chars == s && fresh(u.name.buffer)
    ensures Valid(u, deep) && Separate(u, deep)
    ensures Objects(u, deep) == Objects(t, deep) - Buffers(t.name) + Buffers(u.name)
    ensures h.live == old(h.live) - (if release then Buffers(t.name) else {}) + Buffers(u.name)
  {
    hide Valid, ValidHead, Body, Separate, Objects, ObjectsOf;
    HeadAndBody(t, deep);
    HeadFields(t, deep);
    Parts(t, deep);
    HeapApart(h, t, deep);
    RenamedObjects(t, t.(name := NullString), deep);
    assert allocated(Objects(t, deep));
    if release {
      if item.name != null {
        h.FreeText(item.name);
      }
    }
    var copy := Strdup(h, text, s);
    item.name := copy;
    u := t.(name := CString(copy, s));
    RenamedHead(t, u, deep);
    RenamedObjects(t, u, deep);
    SameBody(t, u, deep);
    HeadAndBody(u, deep);
  }

  lemma SameBody(t: Tree, u: Tree, deep: bool)
    requires u == t.(name := u.name) && Body(t, deep)
    ensures Body(u, deep)
  {
  }

  /** A renamed stranger is still a stranger. */
  lemma RenamedStranger(t: Tree, u: Tree, parent: Node, ts: seq<Tree>, deep: bool)
    requires parent !in Objects(t, deep) && Objects(t, deep) !! ObjectsOf(ts, deep)
    requires Valid(u, deep) && Separate(u, deep)
    requires Objects(u, deep) <= Objects(t, deep) + Buffers(u.name)
    requires Buffers(u.name) !! ObjectsOf(ts, deep)
    ensures Stranger(u, parent, ts, deep)
  {
    hide Valid, Separate, Objects, ObjectsOf;
  }

  /**
   * cJSON_AddItemToObject: the item gets a copy of the name, its old name is freed, and it becomes the last member. A
   * null item changes nothing.
   */
  method AddItemToObject(h: Heap, parent: Node, text: array<byte>, item: Node?, ghost s: bytes, ghost ts: seq<Tree>,
                         ghost t: Tree, ghost deep: bool)
    returns (ghost u: Tree)
    requires Family(parent, ts, deep) && Holds(text, s)
    requires item != null ==> item == t.node && Stranger(t, parent, ts, deep) && Appendable(item, NodesOf(ts))
    requires item != null ==> Buffers(t.name) <= h.live && text !in Buffers(t.name)
    modifies h, parent`child, NodesOf(ts)`next, Self(item)`prev, Self(item)`name
    modifies if item == null then {} else Buffers(t.name)
    ensures item == null ==> Family(parent, ts, deep) && h.live == old(h.live)
    ensures item != null ==>
      && u == t.(name := u.name) && u.name.CString? && u.name.chars == s && fresh(u.name.buffer)
      && Family(parent, ts + [u], deep)
      && h.live == old(h.live) - Buffers(t.name) + Buffers(u.name)
  {
    hide Family, Stranger, Valid, Separate, Objects, ObjectsOf, Holds;
    u := t;
    if item == null {
      return;
    }
    Unrelated(h, parent, ts, t, deep);
    assert allocated(ObjectsOf(ts, deep)) && allocated(Objects(t, deep));
    u := SetName(h, item, text, true, s, t, deep);
    RenamedStranger(t, u, parent, ts, deep);
    AddTree(parent, item, ts, u, deep);
  }

  lemma Unrelated(h: Heap, parent: Node, ts: seq<Tree>, t: Tree, deep: bool)
    requires Stranger(t, parent, ts, deep)
    ensures h !in ObjectsOf(ts, deep) && t.node !in ObjectsOf(ts, deep) && Buffers(t.name) !! ObjectsOf(ts, deep)
    ensures parent != t.node && parent !in Buffers(t.name) && t.node in Objects(t, deep)
      && Buffers(t.name) <= Objects(t, deep)
    ensures Valid(t, deep) && Separate(t, deep) && parent !in Objects(t, deep)
      && Objects(t, deep) !! ObjectsOf(ts, deep)
  {
    hide Valid, Separate, Objects, ObjectsOf;
    HeapApartAll(h, ts, deep);
    Parts(t, deep);
  }

  lemma ObjectsUpdate(ts: seq<Tree>, i: nat, u: Tree, deep: bool)
    requires i < |ts|
    ensures ObjectsOf(UpdateAt(ts, i, u), deep) == ObjectsOf(RemoveAt(ts, i), deep) + Objects(u, deep)
  {
    hide Objects, ObjectsOf;
    var a, b := ts[..i], ts[i + 1..];
    assert UpdateAt(ts, i, u) == a + ([u] + b);
    assert RemoveAt(ts, i) == a + b;
    ObjectsJoin(a, b, deep);
    ObjectsJoin(a, [u] + b, deep);
    Uncons([u] + b, deep);
    assert ([u] + b)[1..] == b;
  }

  /** With `u`, that is `t` under a fresh name, in the place of a child, the name that `t` had stays allocated. */
  lemma LeftOver(ts: seq<Tree>, i: nat, t: Tree, u: Tree, live: set<object>)
    requires i < |ts| && SeparateAll(ts, false) && Objects(t, false) !! ObjectsOf(ts, false)
    requires Objects(u, false) == Objects(t, false) - Buffers(t.name) + Buffers(u.name) && Buffers(u.name) !! live
    requires ObjectsOf(ts, false) + Objects(t, false) <= live
    ensures
      var others, kept := live - ObjectsOf(ts, false) - Objects(t, false), ObjectsOf(UpdateAt(ts, i, u), false);
      && live + Buffers(u.name) - Objects(ts[i], false) == others + kept + Buffers(t.name)
      && (live + Buffers(u.name) - Objects(ts[i], false) == others + kept <==> t.name.NullString?)
  {
    hide Objects, ObjectsOf, SeparateAll;
    Parts(t, false);
    Without(ts, i, false);
    ObjectsUpdate(ts, i, u, false);
    var rest, item, mine := ObjectsOf(RemoveAt(ts, i), false), Objects(ts[i], false), Objects(t, false);
    assert ObjectsOf(ts, false) == rest + item && item !! rest;
    if t.name.CString? {
      assert t.name.buffer in live + Buffers(u.name) - item;
      assert t.name.buffer !in live - ObjectsOf(ts, false) - mine + (rest + Objects(u, false));
    }
  }

  /**
   * cJSON_ReplaceItemInObject: on a match the new item gets a copy of the name and the place of the first match,
   * which is deleted; the name that the new item had before is not freed, so that memory is accounted for exactly
   * when there was none. Without a match nothing happens.
   */
  method ReplaceItemInObject(h: Heap, parent: Node, text: array<byte>, newitem: Node, ghost s: bytes,
                             ghost ts: seq<Tree>, ghost t: Tree)
    returns (ghost u: Tree)
    requires Family(parent, ts, false) && newitem == t.node && Stranger(t, parent, ts, false)
    requires Holds(text, s) && ObjectsOf(ts, false) <= h.live
    modifies h, parent`child, ObjectsOf(ts, false), newitem`next, newitem`prev, newitem`name
    ensures var i := FirstMatch(ts, CString(text, s));
      if i < |ts| then
        && u == t.(name := u.name) && u.name.CString? && u.name.chars == s && fresh(u.name.buffer)
        && Family(parent, UpdateAt(ts, i, u), false)
        && h.live == old(h.live) + Buffers(u.name) - Objects(ts[i], false)
      else
        && Family(parent, ts, false) && h.live == old(h.live)
        && u == t && Stranger(t, parent, ts, false) && unchanged(newitem)
    ensures
      var i := FirstMatch(ts, CString(text, s));
      var others := old(h.live) - ObjectsOf(ts, false) - Objects(t, false);
      i < |ts| && Objects(t, false) <= old(h.live) ==>
        && h.live == others + ObjectsOf(UpdateAt(ts, i, u), false) + Buffers(t.name)
        && (h.live == others + ObjectsOf(UpdateAt(ts, i, u), false) <==> t.name.NullString?)
  {
    hide Family, Stranger, Valid, Separate, Objects, ObjectsOf, FirstMatch, Compare, UpdateAt;
    Unrelated(h, parent, ts, t, false);
    Parts(t, false);
    assert allocated(ObjectsOf(ts, false)) && allocated(Objects(t, false));
    u := t;
    var c, i := Find(parent, text, CString(text, s), ts, false);
    if c != null {
      u := SetName(h, newitem, text, false, s, t, false);
      RenamedStranger(t, u, parent, ts, false);
      if Objects(t, false) <= old(h.live) {
        Members(parent, ts, false);
        LeftOver(ts, i, t, u, old(h.live));
      }
      ReplaceItemInArray(h, parent, i, newitem, ts, u);
    }
  }

  lemma Members(parent: Node, ts: seq<Tree>, deep: bool)
    requires Family(parent, ts, deep)
    ensures SeparateAll(ts, deep)
  {
    hide SeparateAll;
  }

  // An item that has a name already

  /** A new item with a name. */
  method NamedItem(h: Heap, text: array<byte>, ghost s: bytes) returns (n: Node, ghost t: Tree)
    requires Holds(text, s)
    modifies h
    ensures fresh(n) && n == t.node && Single(n) && Valid(t, false) && Separate(t, false)
    ensures t.name.CString? && t.name.chars == s && fresh(t.name.buffer) && Objects(t, false) == {n, t.name.buffer}
    ensures h.live == old(h.live) + Objects(t, false)
  {
    hide Holds;
    n := h.NewItem();
    var name := Strdup(h, text, s);
    n.name := name;
    t := Tree(n, KFalse, false, 0, 0.0, NullString, CString(name, s), []);
    NothingOf(false);
    assert IsList([], false);
  }

  /** The first member of an object. */
  method OnlyMember(h: Heap, parent: Node, text: array<byte>, ghost s: bytes) returns (ghost t: Tree)
    requires parent.child == null && Holds(text, s)
    modifies h, parent`child
    ensures Family(parent, [t], false) && fresh(ObjectsOf([t], false)) && t.name.CString? && t.name.chars == s
    ensures h.live == old(h.live) + ObjectsOf([t], false)
  {
    hide Family, Stranger, Valid, Separate, Objects, ObjectsOf, Holds;
    Childless(parent);
    var item;
    item, t := NamedItem(h, text, s);
    StrangerFrom(t, parent, [], false);
    AddTree(parent, item, [], t, false);
    assert [] + [t] == [t] && [t][1..] == [];
    Uncons([t], false);
  }

  /** An object whose only member is replaced by an item that had a name: the text of that name belongs to nobody. */
  method ReplaceByNamed(h: Heap, parent: Node, a: array<byte>, b: array<byte>)
    returns (ghost u: Tree, ghost lost: array<byte>)
    requires parent.child == null && Holds(a, [97]) && Holds(b, [98]) && h.live == {parent}
    modifies h, parent`child
    ensures Family(parent, [u], false) && h.live == {parent, lost} + ObjectsOf([u], false)
    ensures lost !in ObjectsOf([u], false)
  {
    hide Family, Stranger, Valid, Separate, Objects, ObjectsOf, Holds, Compare;
    var t := OnlyMember(h, parent, a, [97]);
    assert allocated(ObjectsOf([t], false));
    var item, v := NamedItem(h, b, [98]);
    StrangerFrom(v, parent, [t], false);
    SameKey(t, CString(a, [97]));
    u := ReplaceItemInObject(h, parent, a, item, [97], [t], v);
    assert UpdateAt([t], 0, u) == [u];
    lost := v.name.buffer;
  }

  lemma Childless(parent: Node)
    requires parent.child == null
    ensures Family(parent, [], false) && ObjectsOf([], false) == {}
  {
    NothingOf(false);
  }

  lemma SameKey(t: Tree, key: CString)
    requires t.name.CString? && key.CString? && t.name.chars == [97] == key.chars
    ensures FirstMatch([t], key) == 0
  {
    assert [t][0].name.chars[1..] == [] && key.chars[1..] == [];
    assert CompareChars(t.name.chars, key.chars) == CompareChars(t.name.chars[1..], key.chars[1..]);
  }
}
