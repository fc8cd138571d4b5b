/** parse_value, parse_array, parse_object and cJSON_ParseWithOpts build the tree that the text denotes. */
module Parser {
  import opened Bytes
  import opened Json
  import opened ParseText
  import opened Nodes
  import opened Allocator
  import opened Lists
  import opened Deletion
  import opened CStrings
  import Scanner

  /** A node before it receives a value: zeroed, but for the name and type that parse_object leaves. */
  function Blank(n: Node, kind: Kind, name: CString): Tree {
    Tree(n, kind, false, 0, 0.0, NullString, name, [])
  }

  /** `valueint` of every node: a number truncated, one for true, and zero for everything else. */
  ghost predicate Filled(t: Tree)
    decreases t
  {
    && t.valueInt == (if t.kind == KNumber then Scanner.Truncate(t.value) else if t.kind == KTrue then 1 else 0)
    && forall i :: 0 <= i < |t.kids| ==> Filled(t.kids[i])
  }

  /** A tree that is valid and filled, and owns everything it reaches, once. */
  ghost predicate Whole(t: Tree)
    reads t.node`kind, t.node`isReference, t.node`valueInt, t.node`valueDouble
    reads t.node`child, t.node`valueString, t.node`name
    reads Buffers(t.name), Buffers(t.str) + ObjectsOf(t.kids, true)
  {
    Valid(t, true) && Separate(t, true) && Owning(t) && Filled(t)
  }

  /** What was allocated for a value: the tree without the node and the name it started from. */
  ghost function Added(t: Tree): set<object> {
    Objects(t, true) - {t.node} - Buffers(t.name)
  }

  lemma LeafIsWhole(t: Tree)
    requires t.kids == [] && !t.isReference && ValidHead(t, true) && t.node.child == null && Filled(t)
    requires t.node !in Buffers(t.str) + Buffers(t.name) && Buffers(t.str) !! Buffers(t.name)
    ensures Whole(t) && Objects(t, true) == {t.node} + Buffers(t.str) + Buffers(t.name) && Added(t) == Buffers(t.str)
  {
    NothingOf(true);
    assert IsList(t.kids, true) && SeparateAll(t.kids, true);
  }

  lemma BlankFields(n: Node, kind: Kind, name: CString)
    requires Whole(Blank(n, kind, name))
    ensures n.kind == kind != KTrue && !n.isReference
    ensures n.valueInt == 0 && n.valueDouble == 0.0 && n.valueString == null
    ensures n.child == null && n.name == Pointer(name) && ValidText(name) && n !in Buffers(name)
    ensures Objects(Blank(n, kind, name), true) == {n} + Buffers(name)
  {
    NothingOf(true);
  }

  /** An array or object without its children, as it stands in the heap. */
  ghost predicate Base(base: Tree)
    reads base.node`kind, base.node`isReference, base.node`valueInt, base.node`valueDouble
    reads base.node`valueString, base.node`name, Buffers(base.name), Buffers(base.str)
  {
    && base.kids == [] && base.str == NullString && !base.isReference && Filled(base)
    && ValidHead(base, true) && base.node !in Buffers(base.name)
  }

  ghost predicate OwningList(ks: seq<Tree>) {
    forall i :: 0 <= i < |ks| ==> Owning(ks[i]) && Filled(ks[i])
  }

  /** The children of `base` stand apart from it. */
  ghost predicate Outside(base: Tree, ks: seq<Tree>) {
    base.node !in ObjectsOf(ks, true) && Buffers(base.name) !! ObjectsOf(ks, true)
  }

  /** An array or object that is collecting its children; `base` is the tree without them. */
  ghost predicate Building(base: Tree, last: Node?, ks: seq<Tree>)
    reads base.node`kind, base.node`isReference, base.node`valueInt, base.node`valueDouble
    reads base.node`child, base.node`valueString, base.node`name
    reads Buffers(base.name), Buffers(base.str), ObjectsOf(ks, true)
  {
    Base(base) && Collecting(base.node, last, ks, true) && Outside(base, ks) && OwningList(ks)
  }

  lemma BuildingNothing(base: Tree)
    requires Base(base) && base.node.child == null
    ensures Building(base, null, []) && ObjectsOf([], true) == {}
  {
    NothingOf(true);
    CollectingNothing(base.node, true);
  }

  lemma Built(base: Tree, last: Node?, ks: seq<Tree>)
    requires Building(base, last, ks)
    ensures var t := base.(kids := ks); Whole(t) && Added(t) == ObjectsOf(ks, true)
  {
    hide ObjectsOf, IsList, SeparateAll;
    NothingOf(true);
  }

  /** What stays true of the earlier children while the last one, `n`, is parsed in place. */
  ghost predicate Settled(base: Tree, n: Node, ks: seq<Tree>)
    reads base.node`kind, base.node`isReference, base.node`valueInt, base.node`valueDouble
    reads base.node`child, base.node`valueString, base.node`name
    reads Buffers(base.name), Buffers(base.str), ObjectsOf(ks, true), n`next, n`prev
  {
    && Base(base) && Outside(base, ks) && OwningList(ks)
    && ValidAll(ks, true) && SeparateAll(ks, true) && (ListNodes(ks, true); Linked(NodesOf(ks) + [n]))
    && base.node.child == (if ks == [] then n else First(ks))
    && base.node != n && n !in ObjectsOf(ks, true) && n !in Buffers(base.name)
  }

  /** The last child, still blank, is set apart from the ones before it. */
  lemma Settle(base: Tree, n: Node, ks: seq<Tree>, k: Tree)
    requires Collecting(base.node, n, ks + [k], true) && k.node == n && Objects(k, true) !! ObjectsOf(ks, true)
    requires Base(base) && Outside(base, ks) && OwningList(ks) && SeparateAll(ks, true)
    requires base.node != n && n !in Buffers(base.name)
    ensures Settled(base, n, ks)
  {
    hide Valid, Separate, Objects, SeparateAll, ObjectsOf, Base, Outside, OwningList;
    var all := ks + [k];
    NodesAppend(ks, k);
    Parts(k, true);
    ListHalves(ks, k);
  }

  lemma ListHalves(ks: seq<Tree>, k: Tree)
    requires IsList(ks + [k], true)
    ensures ValidAll(ks, true) && Valid(k, true) && Linked(NodesOf(ks + [k]))
  {
    hide Valid;
    var all := ks + [k];
    assert ValidAll(all, true);
    assert forall i :: 0 <= i < |ks| ==> all[i] == ks[i];
    assert all[|ks|] == k;
  }

  lemma BaseText(base: Tree)
    requires Base(base)
    ensures base.str == NullString && Buffers(base.str) == {}
  {
  }

  lemma BuildingText(base: Tree, last: Node?, ks: seq<Tree>)
    requires Building(base, last, ks)
    ensures base.str == NullString
  {
  }

  lemma SettledParts(base: Tree, n: Node, ks: seq<Tree>)
    requires Settled(base, n, ks)
    ensures n !in ObjectsOf(ks, true) && base.node != n && n !in Buffers(base.name) && Buffers(base.str) == {}
  {
    hide ObjectsOf;
  }

  lemma AddedParts(k: Tree)
    ensures Objects(k, true) == {k.node} + Buffers(k.name) + Added(k) && Added(k) !! {k.node} + Buffers(k.name)
  {
    Parts(k, true);
  }

  lemma Unsettle(base: Tree, n: Node, ks: seq<Tree>, k: Tree)
    requires Settled(base, n, ks) && k.node == n && Whole(k)
    requires Objects(k, true) !! ObjectsOf(ks, true) && base.node !in Objects(k, true)
    requires Buffers(base.name) !! Objects(k, true)
    ensures Building(base, n, ks + [k]) && ObjectsOf(ks + [k], true) == ObjectsOf(ks, true) + Objects(k, true)
  {
    hide Valid, Separate, SeparateAll, Base, Objects, ObjectsOf, Owning;
    var all := ks + [k];
    NodesAppend(ks, k);
    ObjectsAppend(ks, k, true);
    SeparateAppend(ks, k, true);
    WholeParts(k);
    ValidAppend(ks, k);
  }

  lemma WholeParts(k: Tree)
    requires Whole(k)
    ensures Valid(k, true) && Separate(k, true) && Owning(k) && Filled(k)
  {
  }

  lemma ValidAppend(ks: seq<Tree>, k: Tree)
    requires ValidAll(ks, true) && Valid(k, true)
    ensures ValidAll(ks + [k], true)
  {
    hide Valid;
  }

  class Parser {
    const text: bytes
    const heap: Heap
    /** The global `ep`; -1 when null. */
    var ep: int

    constructor (text: bytes, heap: Heap)
      ensures this.text == text && this.heap == heap && ep == -1
    {
      this.text, this.heap, ep := text, heap, -1;
    }

    /** The outcome of parsing, as the index-based code reports it. */
    ghost predicate Reports<T>(r: Result<T>, ok: bool, value: T, end: nat)
      reads this`ep
    {
      if ok then end <= |text| && r == Ok(value, text[end..]) && ep == -1
      else 0 <= ep <= |text| && r == Fail(text[ep..])
    }

    /** What every parsing method may assume: a position inside the text, and no error so far. */
    ghost predicate Ready(p: nat)
      reads this`ep
    {
      p <= |text| && NulFree(text) && ep == -1
    }

    lemma ThisApart(t: Tree)
      ensures this !in Objects(t, true) && this !in Buffers(t.name)
    {
      Apart(this, t, true);
      Parts(t, true);
    }

    method ParseValue(item: Node, p: nat, ghost kind: Kind, ghost name: CString) returns (ok: bool, end: nat,
                      ghost t: Tree)
      requires Ready(p) && !ParseText.ParseValue(text[p..]).Undefined?
      requires Whole(Blank(item, kind, name))
      modifies this`ep, heap, item`kind, item`valueInt, item`valueDouble, item`valueString, item`child
      ensures Reports(ParseText.ParseValue(text[p..]), ok, ToJson(t), end)
      ensures Whole(t) && t.node == item && t.name == name
      ensures fresh(Added(t)) && heap.live == old(heap.live) + Added(t)
      decreases |text| - p, 3
    {
      hide Whole, Added, Objects, ParseText.ParseValue, StartsWith, ToJson;
      FirstByteBranch(text[p..]);
      if StartsWith(text[p..], NULL_WORD) {
        t := Become(item, KNull, 0, kind, name);
        ok, end := true, p + 4;
      } else if StartsWith(text[p..], FALSE_WORD) {
        t := Become(item, KFalse, 0, kind, name);
        ok, end := true, p + 5;
      } else if StartsWith(text[p..], TRUE_WORD) {
        t := Become(item, KTrue, 1, kind, name);
        ok, end := true, p + 4;
      } else if Scanner.Peek(text, p) == QUOTE {
        ok, end, t := ParseStringValue(item, p, kind, name);
      } else if Scanner.Peek(text, p) == MINUS || IsDigit(Scanner.Peek(text, p)) {
        end, t := ParseNumberValue(item, p, kind, name);
        ok := true;
      } else if Scanner.Peek(text, p) == OPEN_BRACKET {
        ok, end, t := ParseArray(item, p, kind, name);
      } else if Scanner.Peek(text, p) == OPEN_BRACE {
        ok, end, t := ParseObject(item, p, kind, name);
      } else {
        t := Blank(item, kind, name);
        BlankFields(item, kind, name);
        LeafIsWhole(t);
        ThisApart(t);
        NothingOf(true);
        ep := p;
        assert Whole(t);
        ok, end := false, p;
      }
    }

    /** The type of a word, and the int 1 for true. */
    method Become(item: Node, word: Kind, valueInt: int, ghost kind: Kind, ghost name: CString) returns (ghost t: Tree)
      requires Whole(Blank(item, kind, name)) && word in {KNull, KFalse, KTrue}
      requires valueInt == if word == KTrue then 1 else 0
      modifies item`kind, item`valueInt
      ensures Whole(t) && t.node == item && t.name == name && Added(t) == {}
      ensures ToJson(t) == if word == KNull then Null else if word == KFalse then False else True
    {
      hide Whole, Objects;
      BlankFields(item, kind, name);
      item.kind := word;
      item.valueInt := valueInt;
      t := Blank(item, word, name).(valueInt := valueInt);
      LeafIsWhole(t);
    }

    method ParseNumberValue(item: Node, p: nat, ghost kind: Kind, ghost name: CString) returns (end: nat, ghost t: Tree)
      requires Ready(p) && p < |text| && (text[p] == MINUS || IsDigit(text[p]))
      requires Whole(Blank(item, kind, name))
      modifies item`kind, item`valueInt, item`valueDouble
      ensures Reports(ParseText.ParseValue(text[p..]), true, ToJson(t), end)
      ensures Whole(t) && t.node == item && t.name == name && Added(t) == {}
    {
      hide Whole, Objects, NumberValue, ScanNumber, ParseText.ParseValue;
      BlankFields(item, kind, name);
      NumberBranch(text[p..]);
      assert allocated(Buffers(name));
      end := Scanner.ParseNumber(text, p, item);
      t := Blank(item, KNumber, name).(value := item.valueDouble, valueInt := item.valueInt);
      LeafIsWhole(t);
    }

    method ParseStringValue(item: Node, p: nat, ghost kind: Kind, ghost name: CString) returns (ok: bool, end: nat,
                            ghost t: Tree)
      requires Ready(p) && Scanner.Peek(text, p) == QUOTE && !ParseText.ParseValue(text[p..]).Undefined?
      requires Whole(Blank(item, kind, name))
      modifies this`ep, heap, item`kind, item`valueString
      ensures Reports(ParseText.ParseValue(text[p..]), ok, ToJson(t), end)
      ensures Whole(t) && t.node == item && t.name == name
      ensures fresh(Added(t)) && heap.live == old(heap.live) + Added(t)
    {
      hide Whole, Valid, Separate, Objects, ObjectsOf, Owning, ParseText.ParseString, ParseText.ParseValue;
      BlankFields(item, kind, name);
      StringBranch(text[p..]);
      ghost var x;
      assert allocated(Buffers(name));
      ok, end, x := Scanner.ParseString(heap, text, p, item);
      t := Blank(item, KString, name).(str := x);
      StringIsOk(text[p..]);
      LeafIsWhole(t);
    }

    method ParseArray(item: Node, p: nat, ghost kind: Kind, ghost name: CString) returns (ok: bool, end: nat,
                      ghost t: Tree)
      requires Ready(p) && Scanner.Peek(text, p) == OPEN_BRACKET && !ParseText.ParseValue(text[p..]).Undefined?
      requires Whole(Blank(item, kind, name))
      modifies this`ep, heap, item`kind, item`child
      ensures Reports(ParseText.ParseValue(text[p..]), ok, ToJson(t), end)
      ensures Whole(t) && t.node == item && t.name == name
      ensures fresh(Added(t)) && heap.live == old(heap.live) + Added(t)
      decreases |text| - p, 2
    {
      hide Whole, Valid, Separate, Objects, ObjectsOf;
      hide Owning, Building, ParseText.ParseValue, ParseText.ParseItems, Skip;
      BlankFields(item, kind, name);
      ghost var s := text[p..];
      ArrayBranch(s);
      assert s[1..] == text[p + 1..];
      SkipTwice(text[p + 1..]);
      item.kind := KArray;
      ghost var base := Blank(item, KArray, name);
      ghost var ks: seq<Tree> := [];
      var value := Scanner.Skip(text, p + 1);
      BuildingNothing(base);
      if Scanner.Peek(text, value) == CLOSE_BRACKET {
        assert text[value..][1..] == text[value + 1..];
        ok, end, t := true, value + 1, base;
        LeafIsWhole(t);
      } else {
        ok, end, ks := ParseItems(base, item, value);
        t := base.(kids := ks);
      }
    }

    /** The elements, from the first to the closing bracket. */
    method ParseItems(ghost base: Tree, item: Node, start: nat) returns (ok: bool, end: nat, ghost ks: seq<Tree>)
      requires Ready(start) && !ItemsAt(start).Undefined?
      requires Building(base, null, []) && base.node == item
      modifies this`ep, heap, item`child
      ensures Reports(ItemsAt(start), ok, ItemsOf(ks), end)
      ensures Whole(base.(kids := ks)) && Added(base.(kids := ks)) == ObjectsOf(ks, true)
      ensures fresh(ObjectsOf(ks, true)) && heap.live == old(heap.live) + ObjectsOf(ks, true)
      decreases |text| - start, 6
    {
      hide Building, Whole, Objects, ObjectsOf, ItemsSoFar, ItemsAt;
      NothingOf(true);
      NoItems(start);
      var child;
      ok, child, end, ks := TakeItem(base, item, null, start, start, []);
      while ok && Scanner.Peek(text, end) == COMMA
        invariant ok ==> start < end <= |text|
        invariant Building(base, child, ks)
        invariant fresh(ObjectsOf(ks, true)) && heap.live == old(heap.live) + ObjectsOf(ks, true)
        invariant if ok then ItemsSoFar(start, ks, end) else Reports(ItemsAt(start), false, [], 0)
        decreases ok, |text| - end
      {
        ghost var before := ObjectsOf(ks, true);
        CommaItem(start, ks, end);
        ok, child, end, ks := TakeItem(base, item, child, end + 1, start, ks);
        assert forall o :: o in ObjectsOf(ks, true) ==> o in before || o in ObjectsOf(ks, true) - before;
      }
      if ok {
        ok, end := EndItems(base, child, start, end, ks);
      }
      Built(base, child, ks);
    }

    /** Behind the loop: the bracket that closes, or the position of what stands there instead. */
    method EndItems(ghost base: Tree, ghost last: Node?, ghost start: nat, value: nat, ghost ks: seq<Tree>)
      returns (ok: bool, end: nat)
      requires start <= |text| && value <= |text| && ItemsSoFar(start, ks, value) && Head(text[value..]) != COMMA
      requires Building(base, last, ks)
      modifies this`ep
      ensures Reports(ItemsAt(start), ok, ItemsOf(ks), end) && Building(base, last, ks)
    {
      hide Building, ItemsAt, ItemsSoFar;
      LastItem(start, ks, value);
      if Scanner.Peek(text, value) == CLOSE_BRACKET {
        return true, value + 1;
      }
      ThisApartAll(ks);
      BuildingText(base, last, ks);
      ThisApart(base);
      assert this !in Buffers(base.name) && this !in Buffers(base.str);
      ep := value;
      return false, value;
    }

    /** The outcome for elements that start at `at`, blanks skipped. */
    ghost function ItemsAt(at: nat): Result<seq<Json>>
      requires at <= |text|
    {
      ParseText.ParseItems(ParseText.Skip(text[at..]))
    }

    /** `ks` have been read, and `value` is where the separator or bracket after them should be. */
    ghost predicate ItemsSoFar(start: nat, ks: seq<Tree>, value: nat)
      requires start <= |text| && value <= |text|
      reads this`ep
    {
      && NulFree(text) && ep == -1 && !ItemsAt(start).Undefined?
      && ItemsAt(start) == Prepend(ItemsOf(ks), AfterItem(text[value..]))
    }

    lemma NoItems(start: nat)
      requires start <= |text|
      ensures ItemsAt(start) == Prepend([], ItemsAt(start))
    {
      hide ItemsAt;
      var r := ItemsAt(start);
      if r.Ok? {
        assert [] + r.value == r.value;
      }
    }

    lemma CommaItem(start: nat, ks: seq<Tree>, value: nat)
      requires start <= |text| && value < |text| && ItemsSoFar(start, ks, value) && Head(text[value..]) == COMMA
      ensures Ready(value + 1) && !ItemsAt(start).Undefined?
        && ItemsAt(start) == Prepend(ItemsOf(ks), ItemsAt(value + 1))
    {
      hide ParseText.ParseItems, ParseText.Skip;
      assert text[value..][1..] == text[value + 1..];
    }

    lemma LastItem(start: nat, ks: seq<Tree>, value: nat)
      requires start <= |text| && value <= |text| && ItemsSoFar(start, ks, value) && Head(text[value..]) != COMMA
      ensures ep == -1
      ensures if Head(text[value..]) == CLOSE_BRACKET
        then value < |text| && ItemsAt(start) == Ok(ItemsOf(ks), text[value + 1..])
        else ItemsAt(start) == Fail(text[value..])
    {
      hide ItemsAt;
      if Head(text[value..]) == CLOSE_BRACKET {
        assert text[value..][1..] == text[value + 1..];
        assert ItemsOf(ks) + [] == ItemsOf(ks);
      }
    }

    /** One element and the blanks after it; `at` is after the bracket or comma before it. */
    method TakeItem(ghost base: Tree, item: Node, last: Node?, at: nat, ghost start: nat, ghost ks: seq<Tree>)
      returns (ok: bool, child: Node, value: nat, ghost all: seq<Tree>)
      requires Ready(at) && start <= |text| && !ItemsAt(start).Undefined?
      requires ItemsAt(start) == Prepend(ItemsOf(ks), ItemsAt(at))
      requires Building(base, last, ks) && base.node == item
      modifies this`ep, heap, item`child, ObjectsOf(ks, true)
      ensures Building(base, child, all)
      ensures ObjectsOf(ks, true) <= ObjectsOf(all, true) && fresh(ObjectsOf(all, true) - ObjectsOf(ks, true))
      ensures heap.live == old(heap.live) + (ObjectsOf(all, true) - ObjectsOf(ks, true))
      ensures if ok then at < value <= |text|
        && ItemsSoFar(start, all, value) else Reports(ItemsAt(start), false, [], 0)
      decreases |text| - at, 5
    {
      hide Building, Whole, Objects, ObjectsOf, ParseText.ParseItems, ParseText.ParseValue, ParseText.Skip;
      ghost var k;
      ItemsTurn(ParseText.Skip(text[at..]));
      ok, child, value, k := ParseElement(base, item, last, at, ks);
      all := ks + [k];
      if ok {
        ItemsAppend(ks, k);
        PrependTwice(ItemsOf(ks), ToJson(k), AfterItem(ParseText.Skip(text[value..])));
        assert allocated(ObjectsOf(all, true)) && allocated(Buffers(base.name)) && allocated(Buffers(base.str));
        value := Scanner.Skip(text, value);
      }
    }

    /** A new child is linked after the ones before it and its value parsed in place. */
    method ParseElement(ghost base: Tree, item: Node, last: Node?, at: nat, ghost ks: seq<Tree>)
      returns (ok: bool, child: Node, end: nat, ghost k: Tree)
      requires Ready(at) && !ParseText.ParseValue(ParseText.Skip(text[at..])).Undefined?
      requires Building(base, last, ks) && base.node == item
      modifies this`ep, heap, item`child, ObjectsOf(ks, true)
      ensures Building(base, child, ks + [k])
      ensures ObjectsOf(ks + [k], true) == ObjectsOf(ks, true) + Objects(k, true)
        && Objects(k, true) !! ObjectsOf(ks, true)
      ensures fresh(Objects(k, true)) && heap.live == old(heap.live) + Objects(k, true)
      ensures Reports(ParseText.ParseValue(ParseText.Skip(text[at..])), ok, ToJson(k), end) && (ok ==> at < end)
      decreases |text| - at, 4
    {
      hide Building, Settled, Whole, Objects, ObjectsOf, Added, ParseText.ParseValue, ParseText.Skip;
      NothingOf(true);
      ThisApartAll(ks);
      assert allocated(ObjectsOf(ks, true)) && allocated(Buffers(base.name)) && allocated(Buffers(base.str));
      child := AddChild(base, item, last, ks);
      var value := Scanner.Skip(text, at);
      SettledParts(base, child, ks);
      ok, end, k := ParseValue(child, value, KFalse, NullString);
      AddedParts(k);
      Unsettle(base, child, ks, k);
    }

    lemma ThisApartAll(ks: seq<Tree>)
      ensures this !in ObjectsOf(ks, true) && heap !in ObjectsOf(ks, true)
    {
      ApartAll(this, ks, true);
      ApartAll(heap, ks, true);
    }

    /** cJSON_New_Item, linked as the last child. */
    method AddChild(ghost base: Tree, item: Node, last: Node?, ghost ks: seq<Tree>) returns (child: Node)
      requires Building(base, last, ks) && base.node == item
      modifies heap, item`child, ObjectsOf(ks, true)
      ensures fresh(child) && heap.live == old(heap.live) + {child}
      ensures Settled(base, child, ks) && Whole(Blank(child, KFalse, NullString))
    {
      hide Base, Collecting, OwningList, Objects, ObjectsOf, Valid, Separate, SeparateAll, Settled;
      NothingOf(true);
      ThisApartAll(ks);
      BaseText(base);
      assert allocated(ObjectsOf(ks, true)) && allocated(Buffers(base.name));
      CollectingSeparate(base.node, last, ks);
      child := heap.NewItem();
      ghost var k := Blank(child, KFalse, NullString);
      LeafIsWhole(k);
      AppendKid(item, last, child, ks, k, true);
      Settle(base, child, ks, k);
    }

    method ParseObject(item: Node, p: nat, ghost kind: Kind, ghost name: CString) returns (ok: bool, end: nat,
                       ghost t: Tree)
      requires Ready(p) && Scanner.Peek(text, p) == OPEN_BRACE && !ParseText.ParseValue(text[p..]).Undefined?
      requires Whole(Blank(item, kind, name))
      modifies this`ep, heap, item`kind, item`child
      ensures Reports(ParseText.ParseValue(text[p..]), ok, ToJson(t), end)
      ensures Whole(t) && t.node == item && t.name == name
      ensures fresh(Added(t)) && heap.live == old(heap.live) + Added(t)
      decreases |text| - p, 2
    {
      hide Whole, Valid, Separate, Objects, ObjectsOf;
      hide Owning, Building, ParseText.ParseValue, ParseText.ParseMembers, Skip;
      BlankFields(item, kind, name);
      ghost var s := text[p..];
      ObjectBranch(s);
      assert s[1..] == text[p + 1..];
      SkipTwice(text[p + 1..]);
      item.kind := KObject;
      ghost var base := Blank(item, KObject, name);
      ghost var ks: seq<Tree> := [];
      var value := Scanner.Skip(text, p + 1);
      BuildingNothing(base);
      if Scanner.Peek(text, value) == CLOSE_BRACE {
        assert text[value..][1..] == text[value + 1..];
        ok, end, t := true, value + 1, base;
        LeafIsWhole(t);
      } else {
        ok, end, ks := ParseMembers(base, item, value);
        t := base.(kids := ks);
      }
    }

    /** The members, from the first to the closing brace. */
    method ParseMembers(ghost base: Tree, item: Node, start: nat) returns (ok: bool, end: nat, ghost ks: seq<Tree>)
      requires Ready(start) && !MembersAt(start).Undefined?
      requires Building(base, null, []) && base.node == item
      modifies this`ep, heap, item`child
      ensures Reports(MembersAt(start), ok, MembersOf(ks), end)
      ensures Whole(base.(kids := ks)) && Added(base.(kids := ks)) == ObjectsOf(ks, true)
      ensures fresh(ObjectsOf(ks, true)) && heap.live == old(heap.live) + ObjectsOf(ks, true)
      decreases |text| - start, 7
    {
      hide Building, Whole, Objects, ObjectsOf, MembersSoFar, MembersAt;
      NothingOf(true);
      NoMembers(start);
      var child;
      ok, child, end, ks := TakeMember(base, item, null, start, start, []);
      while ok && Scanner.Peek(text, end) == COMMA
        invariant ok ==> start < end <= |text|
        invariant Building(base, child, ks)
        invariant fresh(ObjectsOf(ks, true)) && heap.live == old(heap.live) + ObjectsOf(ks, true)
        invariant if ok then MembersSoFar(start, ks, end) else Reports(MembersAt(start), false, [], 0)
        decreases ok, |text| - end
      {
        ghost var before := ObjectsOf(ks, true);
        CommaMember(start, ks, end);
        ok, child, end, ks := TakeMember(base, item, child, end + 1, start, ks);
        assert forall o :: o in ObjectsOf(ks, true) ==> o in before || o in ObjectsOf(ks, true) - before;
      }
      if ok {
        ok, end := EndMembers(base, child, start, end, ks);
      }
      Built(base, child, ks);
    }

    /** Behind the loop: the brace that closes, or the position of what stands there instead. */
    method EndMembers(ghost base: Tree, ghost last: Node?, ghost start: nat, value: nat, ghost ks: seq<Tree>)
      returns (ok: bool, end: nat)
      requires start <= |text| && value <= |text| && MembersSoFar(start, ks, value) && Head(text[value..]) != COMMA
      requires Building(base, last, ks)
      modifies this`ep
      ensures Reports(MembersAt(start), ok, MembersOf(ks), end) && Building(base, last, ks)
    {
      hide Building, MembersAt, MembersSoFar;
      LastMember(start, ks, value);
      if Scanner.Peek(text, value) == CLOSE_BRACE {
        return true, value + 1;
      }
      ThisApartAll(ks);
      BuildingText(base, last, ks);
      ThisApart(base);
      assert this !in Buffers(base.name) && this !in Buffers(base.str);
      ep := value;
      return false, value;
    }

    /** The outcome for members that start at `at`, blanks skipped. */
    ghost function MembersAt(at: nat): Result<seq<Member>>
      requires at <= |text|
    {
      ParseText.ParseMembers(ParseText.Skip(text[at..]))
    }

    ghost predicate MembersSoFar(start: nat, ks: seq<Tree>, value: nat)
      requires start <= |text| && value <= |text|
      reads this`ep
    {
      && NulFree(text) && ep == -1 && !MembersAt(start).Undefined?
      && MembersAt(start) == Prepend(MembersOf(ks), AfterMember(text[value..]))
    }

    lemma NoMembers(start: nat)
      requires start <= |text|
      ensures MembersAt(start) == Prepend([], MembersAt(start))
    {
      hide MembersAt;
      var r := MembersAt(start);
      if r.Ok? {
        assert [] + r.value == r.value;
      }
    }

    lemma CommaMember(start: nat, ks: seq<Tree>, value: nat)
      requires start <= |text| && value < |text| && MembersSoFar(start, ks, value) && Head(text[value..]) == COMMA
      ensures Ready(value + 1) && !MembersAt(start).Undefined?
      ensures MembersAt(start) == Prepend(MembersOf(ks), MembersAt(value + 1))
    {
      hide ParseText.ParseMembers, ParseText.Skip;
      assert text[value..][1..] == text[value + 1..];
    }

    lemma LastMember(start: nat, ks: seq<Tree>, value: nat)
      requires start <= |text| && value <= |text| && MembersSoFar(start, ks, value) && Head(text[value..]) != COMMA
      ensures ep == -1
      ensures if Head(text[value..]) == CLOSE_BRACE
        then value < |text| && MembersAt(start) == Ok(MembersOf(ks), text[value + 1..])
        else MembersAt(start) == Fail(text[value..])
    {
      hide MembersAt;
      if Head(text[value..]) == CLOSE_BRACE {
        assert text[value..][1..] == text[value + 1..];
        assert MembersOf(ks) + [] == MembersOf(ks);
      }
    }

    /** One member and the blanks after it; `at` is after the brace or comma before it. */
    method TakeMember(ghost base: Tree, item: Node, last: Node?, at: nat, ghost start: nat, ghost ks: seq<Tree>)
      returns (ok: bool, child: Node, value: nat, ghost all: seq<Tree>)
      requires Ready(at) && start <= |text| && !MembersAt(start).Undefined?
      requires MembersAt(start) == Prepend(MembersOf(ks), MembersAt(at))
      requires Building(base, last, ks) && base.node == item
      modifies this`ep, heap, item`child, ObjectsOf(ks, true)
      ensures Building(base, child, all)
      ensures ObjectsOf(ks, true) <= ObjectsOf(all, true) && fresh(ObjectsOf(all, true) - ObjectsOf(ks, true))
      ensures heap.live == old(heap.live) + (ObjectsOf(all, true) - ObjectsOf(ks, true))
      ensures if ok then at < value <= |text|
        && MembersSoFar(start, all, value) else Reports(MembersAt(start), false, [], 0)
      decreases |text| - at, 6
    {
      hide Building, Whole, Objects, ObjectsOf, ParseText.ParseMembers, ParseText.ParseMember, ParseText.Skip;
      ghost var k;
      MembersTurn(ParseText.Skip(text[at..]));
      ok, child, value, k := ParseMember(base, item, last, at, ks);
      all := ks + [k];
      if ok {
        MembersAppend(ks, k);
        PrependTwice(MembersOf(ks), Member(CharsOf(k.name), ToJson(k)), AfterMember(ParseText.Skip(text[value..])));
        assert allocated(ObjectsOf(all, true)) && allocated(Buffers(base.name)) && allocated(Buffers(base.str));
        value := Scanner.Skip(text, value);
      }
    }

    /** A new child is linked after the ones before it, and its name and value parsed in place. */
    method ParseMember(ghost base: Tree, item: Node, last: Node?, at: nat, ghost ks: seq<Tree>)
      returns (ok: bool, child: Node, end: nat, ghost k: Tree)
      requires Ready(at) && !ParseText.ParseMember(ParseText.Skip(text[at..])).Undefined?
      requires Building(base, last, ks) && base.node == item
      modifies this`ep, heap, item`child, ObjectsOf(ks, true)
      ensures Building(base, child, ks + [k])
      ensures ObjectsOf(ks + [k], true) == ObjectsOf(ks, true) + Objects(k, true)
        && Objects(k, true) !! ObjectsOf(ks, true)
      ensures fresh(Objects(k, true)) && heap.live == old(heap.live) + Objects(k, true)
      ensures Reports(ParseText.ParseMember(ParseText.Skip(text[at..])), ok, Member(CharsOf(k.name), ToJson(k)), end)
      ensures ok ==> at < end
      decreases |text| - at, 5
    {
      hide Building, Settled, Whole, Objects, ObjectsOf, Added, ParseText.ParseMember, ParseText.Skip;
      ThisApartAll(ks);
      assert allocated(ObjectsOf(ks, true)) && allocated(Buffers(base.name)) && allocated(Buffers(base.str));
      child := AddChild(base, item, last, ks);
      SettledParts(base, child, ks);
      ok, end, k := ParseMemberInto(child, at);
      AddedParts(k);
      Unsettle(base, child, ks, k);
    }

    /** parse_string into the node, then the string moves from the value of the node to its name. */
    method ParseName(child: Node, value: nat) returns (ok: bool, end: nat, ghost k: Tree)
      requires Ready(value) && !ParseText.ParseString(text[value..]).Undefined?
      requires Whole(Blank(child, KFalse, NullString))
      modifies this`ep, heap, child`kind, child`valueString, child`name
      ensures Whole(k) && k == Blank(child, k.kind, k.name) && Objects(k, true) == {child} + Buffers(k.name)
      ensures fresh(Buffers(k.name)) && heap.live == old(heap.live) + Buffers(k.name)
      ensures Reports(ParseText.ParseString(text[value..]), ok, CharsOf(k.name), end) && (ok ==> value < end)
    {
      hide Whole, Objects, ObjectsOf, Added, ParseText.ParseString;
      BlankFields(child, KFalse, NullString);
      ghost var x;
      k := Blank(child, KFalse, NullString);
      ok, end, x := Scanner.ParseString(heap, text, value, child);
      if ok {
        child.name := child.valueString;
        child.valueString := null;
        k := Blank(child, KString, x);
      } else {
        ep := value;
      }
      LeafIsWhole(k);
    }

    /** Name, colon and value of a member, read into its node. */
    method ParseMemberInto(child: Node, at: nat) returns (ok: bool, end: nat, ghost k: Tree)
      requires Ready(at) && !ParseText.ParseMember(ParseText.Skip(text[at..])).Undefined?
      requires Whole(Blank(child, KFalse, NullString))
      modifies this`ep, heap, child`kind, child`valueInt, child`valueDouble, child`valueString, child`child, child`name
      ensures Whole(k) && k.node == child
      ensures fresh(Objects(k, true) - {child}) && heap.live == old(heap.live) + (Objects(k, true) - {child})
      ensures Reports(ParseText.ParseMember(ParseText.Skip(text[at..])), ok, Member(CharsOf(k.name), ToJson(k)), end)
      ensures ok ==> at < end
      decreases |text| - at, 4
    {
      hide Whole, Objects, ObjectsOf, Added, ParseText.ParseValue, ParseText.ParseString, ParseText.Skip;
      BlankFields(child, KFalse, NullString);
      var value := Scanner.Skip(text, at);
      LeafIsWhole(Blank(child, KFalse, NullString));
      ok, end, k := ParseName(child, value);
      ghost var named := k;
      BlankFields(child, named.kind, named.name);
      if ok {
        ok, end, k := ParseNamed(child, end, named, text[value..]);
        assert Objects(k, true) - {child} == Objects(k, true) - {child} - Buffers(named.name) + Buffers(named.name);
        assert fresh(Buffers(named.name)) && fresh(Objects(k, true) - {child} - Buffers(named.name));
      }
    }

    /** What follows the name: colon and value. */
    method ParseNamed(child: Node, at: nat, ghost named: Tree, ghost s: bytes)
      returns (ok: bool, end: nat, ghost k: Tree)
      requires Ready(at) && !ParseText.ParseMember(s).Undefined?
      requires ParseText.ParseString(s) == Ok(CharsOf(named.name), text[at..])
      requires Whole(named) && named == Blank(child, named.kind, named.name)
      requires Objects(named, true) == {child} + Buffers(named.name)
      modifies this`ep, heap, child`kind, child`valueInt, child`valueDouble, child`valueString, child`child
      ensures Whole(k) && k.node == child && Buffers(named.name) <= Objects(k, true)
      ensures fresh(Objects(k, true) - {child} - Buffers(named.name))
      ensures heap.live == old(heap.live) + (Objects(k, true) - {child} - Buffers(named.name))
      ensures Reports(ParseText.ParseMember(s), ok, Member(CharsOf(k.name), ToJson(k)), end)
      ensures ok ==> at < end
      decreases |text| - at, 4
    {
      hide Whole, Objects, ObjectsOf, Added, ParseText.ParseValue, ParseText.ParseString, ParseText.Skip;
      k := named;
      BlankFields(child, k.kind, k.name);
      var value := Scanner.Skip(text, at);
      if Scanner.Peek(text, value) != COLON {
        ep := value;
        ok, end := false, value;
        LeafIsWhole(k);
        return;
      }
      assert text[value..][1..] == text[value + 1..];
      value := Scanner.Skip(text, value + 1);
      LeafIsWhole(k);
      ok, end, k := ParseValue(child, value, named.kind, named.name);
      AddedParts(k);
    }

    /** Parse a whole text into a new tree; on failure everything allocated for it has been freed. */
    method ParseWithOpts(requireEnd: bool) returns (c: Node?, end: nat, ghost t: Tree)
      requires NulFree(text) && !ParseDocument(text, requireEnd).Undefined?
      modifies this`ep, heap
      ensures c != null ==> c == t.node && Whole(t) && c.next == null && c.prev == null && ep == -1
      ensures c != null ==> end <= |text| && ParseDocument(text, requireEnd) == Ok(ToJson(t), text[end..])
      ensures c != null ==> fresh(Objects(t, true)) && heap.live == old(heap.live) + Objects(t, true)
      ensures c == null ==> 0 <= ep <= |text| && ParseDocument(text, requireEnd) == Fail(text[ep..])
      ensures c == null ==> heap.live == old(heap.live)
    {
      hide Whole, Objects, ObjectsOf, Added, ParseText.ParseValue, ParseText.Skip;
      NothingOf(true);
      assert text[0..] == text;
      var item := heap.NewItem();
      ep := -1;
      LeafIsWhole(Blank(item, KFalse, NullString));
      var value := Scanner.Skip(text, 0);
      var ok;
      ok, end, t := ParseValue(item, value, KFalse, NullString);
      AddedParts(t);
      if !ok {
        DeleteWhole(item, t);
        return null, 0, t;
      }
      if requireEnd {
        assert allocated(Objects(t, true));
        end := Scanner.Skip(text, end);
        assert Whole(t) by { Parts(t, true); }
        if Scanner.Peek(text, end) != 0 {
          var at := end;
          DeleteWhole(item, t);
          ep := at;
          return null, 0, t;
        }
      }
      c := item;
    }

    method DeleteWhole(item: Node, ghost t: Tree)
      requires Whole(t) && item == t.node && item.next == null && Objects(t, true) <= heap.live
      modifies heap, Objects(t, true)
      ensures heap.live == old(heap.live) - Objects(t, true)
    {
      WholeParts(t);
      OwningObjects(t);
      OwningSeparate(t);
      OwningValid(t);
      SingleChain(t);
      Delete(heap, item, [t]);
    }
  }

  lemma SingleChain(t: Tree)
    requires Valid(t, false) && Separate(t, false) && t.node.next == null
    ensures Chained([t]) && ValidAll([t], false) && SeparateAll([t], false)
      && ObjectsOf([t], false) == Objects(t, false)
  {
    hide Valid, Separate;
    NothingOf(false);
    ObjectsAppend([], t, false);
    assert [] + [t] == [t];
  }

  lemma MembersAppend(ks: seq<Tree>, k: Tree)
    ensures MembersOf(ks + [k]) == MembersOf(ks) + [Member(CharsOf(k.name), ToJson(k))]
  {
  }

  lemma CollectingSeparate(parent: Node, last: Node?, ks: seq<Tree>)
    requires Collecting(parent, last, ks, true)
    ensures SeparateAll(ks, true)
  {
  }

  lemma ItemsAppend(ks: seq<Tree>, k: Tree)
    ensures ItemsOf(ks + [k]) == ItemsOf(ks) + [ToJson(k)]
  {
  }

  lemma StringIsOk(s: bytes)
    requires s != [] && s[0] == QUOTE
    ensures !ParseText.ParseString(s).Fail?
  {
  }

  /** cJSON_ParseWithOpts on a pointer: a null pointer is refused before anything is read, and `ep` stays null. */
  method Parse(h: Heap, value: array?<byte>, requireEnd: bool, ghost x: CString)
    returns (c: Node?, end: nat, ep: int, ghost t: Tree)
    requires value == Pointer(x) && ValidText(x) && (x.CString? ==> !ParseDocument(x.chars, requireEnd).Undefined?)
    modifies h
    ensures c != null ==> x.CString? && c == t.node && Whole(t) && c.next == null && c.prev == null && ep == -1
    ensures c != null ==> end <= |x.chars| && ParseDocument(x.chars, requireEnd) == Ok(ToJson(t), x.chars[end..])
    ensures c != null ==> fresh(Objects(t, true)) && h.live == old(h.live) + Objects(t, true)
    ensures c == null ==> h.live == old(h.live)
    ensures c == null ==>
      if x.NullString? then ep == -1
      else 0 <= ep <= |x.chars| && ParseDocument(x.chars, requireEnd) == Fail(x.chars[ep..])
  {
    hide Whole, Objects, ObjectsOf, Holds;
    if value == null {
      var parser := new Parser([], h);
      var item := h.NewItem();
      LeafIsWhole(Blank(item, KFalse, NullString));
      t := Blank(item, KFalse, NullString);
      parser.DeleteWhole(item, t);
      return null, 0, -1, t;
    }
    var n := Strlen(value, x.chars);
    CharsHeld(value, x.chars);
    var parser := new Parser(value[..n], h);
    c, end, t := parser.ParseWithOpts(requireEnd);
    ep := parser.ep;
  }

  lemma CharsHeld(a: array<byte>, s: bytes)
    requires Holds(a, s)
    ensures |s| < a.Length && a[..|s|] == s && NulFree(s)
  {
  }
}
