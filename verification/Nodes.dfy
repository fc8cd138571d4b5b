/** cJSON nodes on the heap, and the ghost trees that describe what they hold and own. */
module Nodes {
  import opened Bytes
  import opened Json

  /** `type & 255`; a zeroed node is a False. */
  datatype Kind = KFalse | KTrue | KNull | KNumber | KString | KArray | KObject

  class Node {
    var next: Node?
    var prev: Node?
    var child: Node?
    var kind: Kind
    /** `type & cJSON_IsReference` */
    var isReference: bool
    var valueString: array?<byte>
    var valueInt: int
    var valueDouble: real
    /** `string`, the name of an object member */
    var name: array?<byte>

    constructor ()
      ensures next == null && prev == null && child == null && kind == KFalse && !isReference
      ensures valueString == null && valueInt == 0 && valueDouble == 0.0 && name == null
    {
      next, prev, child, kind, isReference := null, null, null, KFalse, false;
      valueString, valueInt, valueDouble, name := null, 0, 0.0, null;
    }
  }

  /** A heap buffer that holds a C string, or a null pointer. */
  datatype CString = NullString | CString(buffer: array<byte>, chars: bytes)

  /** `a` holds the C string `s`: its bytes, then the terminator. */
  ghost predicate Holds(a: array<byte>, s: bytes)
    reads a
  {
    |s| < a.Length && a[..|s|] == s && a[|s|] == 0 && NulFree(s)
  }

  function Pointer(x: CString): array?<byte> {
    if x.NullString? then null else x.buffer
  }

  ghost function Buffers(x: CString): set<object> {
    if x.NullString? then {} else {x.buffer}
  }

  ghost predicate ValidText(x: CString)
    reads Buffers(x)
  {
    x.CString? ==> Holds(x.buffer, x.chars)
  }

  /** What a node and everything below it should hold. */
  datatype Tree = Tree(node: Node, kind: Kind, isReference: bool, valueInt: int, value: real, str: CString,
                       name: CString, kids: seq<Tree>)

  function First(ts: seq<Tree>): Node? {
    if ts == [] then null else ts[0].node
  }

  /** The string and the children of a reference node belong to the item it refers to. */
  ghost predicate Borrows(t: Tree, deep: bool) {
    t.isReference && !deep
  }

  /** The objects of a tree: those it owns, or (`deep`) also those it borrows. */
  ghost function Objects(t: Tree, deep: bool): set<object>
    decreases t, 0
  {
    {t.node} + Buffers(t.name) + if Borrows(t, deep) then {} else Buffers(t.str) + ObjectsOf(t.kids, deep)
  }

  ghost function ObjectsOf(ts: seq<Tree>, deep: bool): set<object>
    decreases ts, 1
  {
    set i, o | 0 <= i < |ts| && o in Objects(ts[i], deep) :: o
  }

  lemma Within(ts: seq<Tree>, i: nat, deep: bool)
    requires i < |ts|
    ensures Objects(ts[i], deep) <= ObjectsOf(ts, deep) && ts[i].node in ObjectsOf(ts, deep)
  {
  }

  ghost function NodesOf(ts: seq<Tree>): (ns: seq<Node>)
    ensures |ns| == |ts| && forall i :: 0 <= i < |ts| ==> ns[i] == ts[i].node
  {
    if ts == [] then [] else [ts[0].node] + NodesOf(ts[1..])
  }

  lemma ListNodes(ts: seq<Tree>, deep: bool)
    ensures forall n :: n in NodesOf(ts) ==> n in ObjectsOf(ts, deep)
  {
    assert forall i :: 0 <= i < |ts| ==> NodesOf(ts)[i] in Objects(ts[i], deep);
  }

  /** `ns` is a whole sibling list: every link has its inverse, and both ends are null. */
  ghost predicate Linked(ns: seq<Node>)
    reads ns`next, ns`prev
  {
    && (forall i {:trigger ns[i].next} :: 0 <= i < |ns| ==> ns[i].next == if i + 1 < |ns| then ns[i + 1] else null)
    && (forall i {:trigger ns[i].prev} :: 0 <= i < |ns| ==> ns[i].prev == if i > 0 then ns[i - 1] else null)
  }

  /** The fields of the root other than its links and its children. */
  ghost predicate ValidHead(t: Tree, deep: bool)
    reads t.node`kind, t.node`isReference, t.node`valueInt, t.node`valueDouble, t.node`valueString, t.node`name
    reads Buffers(t.name), if Borrows(t, deep) then {} else Buffers(t.str)
  {
    && t.node.kind == t.kind && t.node.isReference == t.isReference
    && t.node.valueInt == t.valueInt && t.node.valueDouble == t.value
    && t.node.name == Pointer(t.name) && ValidText(t.name)
    && (!Borrows(t, deep) ==> t.node.valueString == Pointer(t.str) && ValidText(t.str))
  }

  /** The links of the root belong to the list it stands in, so they are not read here. */
  ghost predicate Valid(t: Tree, deep: bool)
    reads t.node`kind, t.node`isReference, t.node`valueInt, t.node`valueDouble
    reads t.node`child, t.node`valueString, t.node`name
    reads Buffers(t.name), if Borrows(t, deep) then {} else Buffers(t.str) + ObjectsOf(t.kids, deep)
    decreases t, 0
  {
    && ValidHead(t, deep)
    && (!Borrows(t, deep) ==> t.node.child == First(t.kids) && IsList(t.kids, deep))
  }

  /** What a node of a valid tree holds. */
  lemma HeadFields(t: Tree, deep: bool)
    requires Valid(t, deep)
    ensures t.node.kind == t.kind && t.node.isReference == t.isReference
    ensures t.node.valueInt == t.valueInt && t.node.valueDouble == t.value
    ensures t.node.name == Pointer(t.name) && ValidText(t.name)
    ensures !Borrows(t, deep) ==>
      t.node.valueString == Pointer(t.str) && ValidText(t.str) && t.node.child == First(t.kids)
  {
  }

  /** A whole sibling list of valid trees. */
  ghost predicate IsList(ts: seq<Tree>, deep: bool)
    reads ObjectsOf(ts, deep)
    decreases ts, 2
  {
    (ListNodes(ts, deep); Linked(NodesOf(ts))) && ValidAll(ts, deep)
  }

  lemma Parts(t: Tree, deep: bool)
    ensures t.node in Objects(t, deep) && Buffers(t.name) <= Objects(t, deep)
    ensures !Borrows(t, deep) ==> Buffers(t.str) + ObjectsOf(t.kids, deep) <= Objects(t, deep)
  {
  }

  ghost predicate ValidAll(ts: seq<Tree>, deep: bool)
    reads ObjectsOf(ts, deep)
    decreases ts, 1
  {
    forall i :: 0 <= i < |ts| ==> (Within(ts, i, deep); Valid(ts[i], deep))
  }

  /** No object stands in the tree twice. */
  ghost predicate Separate(t: Tree, deep: bool)
    decreases t, 0
  {
    && Buffers(t.name) !! {t.node}
    && (!Borrows(t, deep) ==>
          && Buffers(t.str) !! {t.node} && Buffers(t.str) !! Buffers(t.name)
          && {t.node} + Buffers(t.str) + Buffers(t.name) !! ObjectsOf(t.kids, deep)
          && SeparateAll(t.kids, deep))
  }

  ghost predicate SeparateAll(ts: seq<Tree>, deep: bool)
    decreases ts, 1
  {
    && (forall i :: 0 <= i < |ts| ==> Separate(ts[i], deep))
    && forall i, j :: 0 <= i < j < |ts| ==> Objects(ts[i], deep) !! Objects(ts[j], deep)
  }

  lemma NothingOf(deep: bool)
    ensures ObjectsOf([], deep) == {}
  {
  }

  /** A list of trees, split after the first. */
  lemma Uncons(ts: seq<Tree>, deep: bool)
    requires ts != []
    ensures ObjectsOf(ts, deep) == Objects(ts[0], deep) + ObjectsOf(ts[1..], deep)
    ensures SeparateAll(ts, deep) ==> Separate(ts[0], deep) && SeparateAll(ts[1..], deep)
    ensures SeparateAll(ts, deep) ==> Objects(ts[0], deep) !! ObjectsOf(ts[1..], deep)
  {
    hide Objects, ObjectsOf, Separate, SeparateAll;
    UnconsObjects(ts, deep);
    if SeparateAll(ts, deep) {
      UnconsSeparate(ts, deep);
    }
  }

  lemma UnconsSeparate(ts: seq<Tree>, deep: bool)
    requires ts != [] && SeparateAll(ts, deep)
    ensures Separate(ts[0], deep) && SeparateAll(ts[1..], deep) && Objects(ts[0], deep) !! ObjectsOf(ts[1..], deep)
  {
    hide Objects, Separate;
  }

  lemma UnconsObjects(ts: seq<Tree>, deep: bool)
    requires ts != []
    ensures ObjectsOf(ts, deep) == Objects(ts[0], deep) + ObjectsOf(ts[1..], deep)
  {
    hide Objects;
    var rest := ts[1..];
    forall o | o in ObjectsOf(ts, deep)
      ensures o in Objects(ts[0], deep) + ObjectsOf(rest, deep)
    {
      var i :| 0 <= i < |ts| && o in Objects(ts[i], deep);
      if i > 0 { assert rest[i - 1] == ts[i]; }
    }
    forall o | o in ObjectsOf(rest, deep)
      ensures o in ObjectsOf(ts, deep)
    {
      var i :| 0 <= i < |rest| && o in Objects(rest[i], deep);
      assert o in Objects(ts[i + 1], deep);
    }
  }

  lemma UnconsValid(ts: seq<Tree>, deep: bool)
    requires ts != [] && ValidAll(ts, deep)
    ensures Valid(ts[0], deep) && ValidAll(ts[1..], deep)
  {
    hide Valid;
  }

  /** A tree without references owns all that it reaches. */
  ghost predicate Owning(t: Tree)
    decreases t
  {
    !t.isReference && forall i :: 0 <= i < |t.kids| ==> Owning(t.kids[i])
  }

  lemma {:induction false} OwningObjects(t: Tree)
    requires Owning(t)
    ensures Objects(t, true) == Objects(t, false)
    decreases t
  {
    forall i | 0 <= i < |t.kids|
      ensures Objects(t.kids[i], true) == Objects(t.kids[i], false)
    {
      OwningObjects(t.kids[i]);
    }
    assert ObjectsOf(t.kids, true) == ObjectsOf(t.kids, false);
  }

  lemma {:induction false} OwningSeparate(t: Tree)
    requires Owning(t) && Separate(t, true)
    ensures Separate(t, false)
    decreases t
  {
    hide Objects, ObjectsOf;
    forall i | 0 <= i < |t.kids|
      ensures Objects(t.kids[i], true) == Objects(t.kids[i], false) && Separate(t.kids[i], false)
    {
      OwningObjects(t.kids[i]);
      OwningSeparate(t.kids[i]);
    }
    SameObjectsOf(t.kids);
  }

  lemma SameObjectsOf(ts: seq<Tree>)
    requires forall i :: 0 <= i < |ts| ==> Objects(ts[i], true) == Objects(ts[i], false)
    ensures ObjectsOf(ts, true) == ObjectsOf(ts, false)
  {
    hide Objects;
  }

  lemma {:induction false} OwningValid(t: Tree)
    requires Owning(t) && Valid(t, true)
    ensures Valid(t, false)
    decreases t
  {
    hide Objects, ObjectsOf, Linked;
    assert ValidHead(t, true) && ValidHead(t, false);
    assert IsList(t.kids, true);
    assert ValidAll(t.kids, true);
    forall i | 0 <= i < |t.kids|
      ensures Valid(t.kids[i], false)
    {
      OwningValid(t.kids[i]);
    }
    assert ValidAll(t.kids, false);
    assert IsList(t.kids, false);
  }

  // The value of a tree

  function CharsOf(x: CString): bytes {
    if x.NullString? then [] else x.chars
  }

  function ToJson(t: Tree): Json
    decreases t, 0
  {
    match t.kind
    case KFalse => False
    case KTrue => True
    case KNull => Null
    case KNumber => Number(t.value)
    case KString => String(CharsOf(t.str))
    case KArray => Array(ItemsOf(t.kids))
    case KObject => Object(MembersOf(t.kids))
  }

  /** The constants of `type`. */
  function TypeCode(k: Kind): nat {
    match k
    case KFalse => 0
    case KTrue => 1
    case KNull => 2
    case KNumber => 3
    case KString => 4
    case KArray => 5
    case KObject => 6
  }

  lemma TypeTells(t: Tree)
    ensures TypeCode(t.kind) ==
      match ToJson(t)
      case False => 0
      case True => 1
      case Null => 2
      case Number(_) => 3
      case String(_) => 4
      case Array(_) => 5
      case Object(_) => 6
  {
  }

  function ItemsOf(ts: seq<Tree>): (items: seq<Json>)
    ensures |items| == |ts| && forall i :: 0 <= i < |ts| ==> items[i] == ToJson(ts[i])
    decreases ts, 1
  {
    if ts == [] then [] else [ToJson(ts[0])] + ItemsOf(ts[1..])
  }

  function MembersOf(ts: seq<Tree>): (members: seq<Member>)
    ensures |members| == |ts|
    ensures forall i :: 0 <= i < |ts| ==> members[i] == Member(CharsOf(ts[i].name), ToJson(ts[i]))
    decreases ts, 1
  {
    if ts == [] then [] else [Member(CharsOf(ts[0].name), ToJson(ts[0]))] + MembersOf(ts[1..])
  }
}
