/** The buffered printer: one growing buffer to which everything is appended. */
module BufferedPrinter {
  import opened Bytes
  import opened Json
  import opened PrintText
  import opened Nodes
  import opened Allocator
  import opened Lists
  import opened Bits
  import opened Rendering
  import opened TreeText
  import opened Requests
  import opened Printer

  /** Sizes are C ints; up to here pow2gt does not overflow. */
  const LIMIT: int := 0x4000_0000

  /** strlen from position `at` of a buffer. */
  method StrlenAt(a: array<byte>, at: nat, ghost s: bytes) returns (n: nat)
    requires at <= |s| && Reads(a, s) && NulFree(s[at..])
    ensures n == |s| - at
  {
    assert forall i :: 0 <= i < |s| ==> a[i] == s[i];
    assert forall i :: at <= i < |s| ==> s[i] == s[at..][i - at];
    n := 0;
    while a[at + n] != 0
      invariant at + n <= |s|
      decreases |s| - n
    {
      n := n + 1;
    }
  }

  /** Copies stay below the length of the buffer that they fill, once it is a power of two. */
  ghost predicate Bounded(copied: nat, length: int) {
    copied == 0 || (copied < length && IsPowerOfTwo(length))
  }

  lemma Doubles(copied: nat, length: int, newsize: int)
    requires 0 <= length < newsize && IsPowerOfTwo(newsize) && Bounded(copied, length)
    ensures Bounded(copied + length, newsize)
  {
    hide IsPowerOfTwo;
    if copied > 0 {
      PowersApart(length, newsize);
    }
  }

  /** A buffer can be filled as far as growing does not overflow, or as it is long at first. */
  function Ceiling(prebuffer: int): int {
    if prebuffer > LIMIT then prebuffer else LIMIT
  }

  predicate Reachable(ceiling: int, length: int) {
    ceiling <= LIMIT || ceiling <= length
  }

  /** printbuffer */
  class PrintBuffer {
    var buffer: array<byte>
    var length: int
    var offset: int
    const heap: Heap
    /** What was allocated before. */
    ghost const base: set<object>
    /** How far it can be filled. */
    ghost const ceiling: int
    /** How many bytes memcpy has moved into new buffers. */
    ghost var copied: nat

    ghost predicate Coherent()
      reads this, heap
    {
      && length == buffer.Length && 0 <= offset <= length
      && heap.live == base + {buffer} && buffer !in base
      && Bounded(copied, length) && Reachable(ceiling, length)
    }

    constructor (h: Heap, prebuffer: nat)
      modifies h
      ensures Coherent() && fresh(buffer) && heap == h && base == old(h.live) && length == prebuffer
        && offset == 0 && copied == 0 && ceiling == Ceiling(prebuffer)
    {
      base, ceiling := h.live, Ceiling(prebuffer);
      var b := h.Malloc(prebuffer);
      heap, buffer, length, offset, copied := h, b, prebuffer, 0, 0;
    }

    /** The text so far. */
    ghost function Written(): bytes
      requires Coherent()
      reads this, heap, buffer
    {
      buffer[..offset]
    }

    /** ensure: makes room for `needed` bytes at the offset. */
    method Ensure(needed: int)
      requires Coherent() && needed >= 0 && offset + needed <= ceiling
      modifies this, heap, buffer
      ensures Coherent() && offset == old(offset) && offset + needed <= length
      ensures old(length) <= length && buffer[..old(length)] == old(buffer[..])
      ensures old(offset + needed <= length) ==> buffer == old(buffer) && copied == old(copied)
      ensures old(offset + needed > length) ==>
                fresh(buffer) && copied == old(copied + length) && length == Pow2gt(old(offset) + needed)
      ensures Written() == old(Written())
    {
      hide Bounded, IsPowerOfTwo, Pow2gt;
      var total := needed + offset;
      if total > length {
        Pow2gtLeast(total);
        Grow(Pow2gt(total));
      }
    }

    /** Moves the buffer into one of the next power of two that is large enough. */
    method Grow(newsize: int)
      requires Coherent() && newsize > length && IsPowerOfTwo(newsize)
      modifies this, heap, buffer
      ensures Coherent() && offset == old(offset) && length == newsize && fresh(buffer)
      ensures buffer[..old(length)] == old(buffer[..]) && copied == old(copied + length)
    {
      hide Bounded, IsPowerOfTwo;
      Doubles(copied, length, newsize);
      copied := copied + length;
      var newbuffer := heap.Malloc(newsize);
      forall i | 0 <= i < length {
        newbuffer[i] := buffer[i];
      }
      heap.FreeText(buffer);
      length := newsize;
      buffer := newbuffer;
    }

    /** update: the offset moves behind the text that stands in the buffer. */
    method Update(ghost s: bytes)
      requires Coherent() && offset <= |s| && Reads(buffer, s) && NulFree(s[offset..])
      modifies this`offset
      ensures Coherent() && offset == |s| && Written() == s
    {
      var n := StrlenAt(buffer, offset, s);
      offset := offset + n;
    }

    // Appending

    /** Makes room for the bytes and appends them one by one. */
    method Put(s: bytes)
      requires Coherent() && offset + |s| <= ceiling
      modifies this, heap, buffer
      ensures Coherent() && Written() == old(Written()) + s
      ensures buffer == old(buffer) || fresh(buffer)
    {
      hide Bounded, Reachable;
      Ensure(|s|);
      offset := PutBytes(s, buffer, offset);
    }

    /** Makes room for the bytes and a terminator, and appends both. */
    method PutTerminated(s: bytes)
      requires Coherent() && offset + |s| + 1 <= ceiling
      modifies this, heap, buffer
      ensures Coherent() && Written() == old(Written()) + s
      ensures buffer == old(buffer) || fresh(buffer)
    {
      hide Bounded, Reachable;
      PutLast(s);
      offset := offset + |s|;
    }

    /** The same, but the offset stays in front of the bytes. */
    method PutLast(s: bytes)
      requires Coherent() && offset + |s| + 1 <= ceiling
      modifies this, heap, buffer
      ensures Coherent() && offset == old(offset) && Reads(buffer, old(Written()) + s)
      ensures buffer == old(buffer) || fresh(buffer)
    {
      hide Bounded, Reachable;
      Ensure(|s| + 1);
      Strcpy(buffer, offset, s);
    }

    // Leaves

    method PrintNumber(item: Node) returns (out: nat)
      requires Coherent() && offset + (if item.valueDouble == 0.0 then 2 else 21) <= ceiling
      requires IsInt32(item.valueDouble) && item.valueInt == item.valueDouble.Floor
      modifies this, heap, buffer
      ensures Coherent() && out == offset == old(offset)
        && Reads(buffer, old(Written()) + IntText(item.valueDouble.Floor))
      ensures buffer == old(buffer) || fresh(buffer)
    {
      hide Bounded, Reachable;
      var d := item.valueDouble;
      IntFits(item.valueInt);
      var text := IntText(item.valueInt);
      if d == 0.0 {
        assert text == [48];
        Ensure(2);
        Strcpy(buffer, offset, [48]);
      } else if Abs(item.valueInt as real - d) <= DBL_EPSILON && d <= INT_MAX as real && d >= INT_MIN as real {
        Ensure(21);
        Strcpy(buffer, offset, text);
      } else {
        assert false;
      }
      out := offset;
    }

    method PrintString(str: array<byte>, ghost s: bytes) returns (out: nat)
      requires Coherent() && Holds(str, s) && str != buffer && offset + |StringText(s)| + 1 <= ceiling
      modifies this, heap, buffer
      ensures Coherent() && out == offset == old(offset) && Reads(buffer, old(Written()) + StringText(s))
      ensures buffer == old(buffer) || fresh(buffer)
    {
      hide Bounded, Reachable, StringText, Escape;
      var flag, size := MeasureString(str, s);
      Ensure(size);
      FillString(str, s, flag, buffer, offset);
      out := offset;
    }

    // Arrays

    method PrintArray(item: Node, depth: nat, fmt: bool, ghost t: Tree) returns (out: nat)
      requires item == t.node && t.kind == KArray && Valid(t, true) && WellTyped(t)
      requires Coherent() && buffer !in Objects(t, true) && offset + Peak(ToJson(t), depth, fmt) <= ceiling
      modifies this, heap, buffer
      ensures Coherent() && Advanced(old(offset), |Text(ToJson(t), depth, fmt)|)
      ensures Reads(buffer, old(Written()) + Text(ToJson(t), depth, fmt))
      ensures buffer == old(buffer) || fresh(buffer)
      ensures out == old(offset)
      decreases t, 4
    {
      hide Valid, WellTyped, Objects, Text, ItemsText, Peak, ItemsPeak, Bounded, Reachable, Reads;
      ArrayText(t, depth, fmt);
      ArrayRequests(t, depth, fmt);
      Standing(t);
      assert allocated(Objects(t, true));
      var numentries := CountKids(item, t);
      out := offset;
      if numentries == 0 {
        PutLast([OPEN_BRACKET, CLOSE_BRACKET]);
      } else {
        ComposeItems(item, depth, fmt, t);
      }
    }

    method ComposeItems(item: Node, depth: nat, fmt: bool, ghost t: Tree)
      requires item == t.node && t.kind == KArray && t.kids != [] && Valid(t, true) && WellTyped(t)
      requires Coherent() && buffer !in Objects(t, true) && offset + Peak(ToJson(t), depth, fmt) <= ceiling
      modifies this, heap, buffer
      ensures Coherent() && Advanced(old(offset), |Text(ToJson(t), depth, fmt)|)
      ensures Reads(buffer, old(Written()) + Text(ToJson(t), depth, fmt))
      ensures buffer == old(buffer) || fresh(buffer)
      decreases t, 3
    {
      hide Valid, WellTyped, Objects, Text, ItemsText, Peak, ItemsPeak, Bounded, Reachable, Reads;
      ghost var start, items := Written(), ItemsText(ItemsOf(t.kids), depth + 1, fmt);
      ArrayText(t, depth, fmt);
      ArrayRequests(t, depth, fmt);
      Standing(t);
      assert allocated(Objects(t, true));
      Put([OPEN_BRACKET]);
      PrintItems(item, depth + 1, fmt, t);
      PutLast([CLOSE_BRACKET]);
      ArrayPieces(start, items);
    }

    /** The offset stands somewhere between the start of a text of length `n` and its end. */
    ghost predicate Advanced(start: int, n: nat)
      reads this
    {
      start <= offset <= start + n
    }

    /** No write of the printer reaches the tree. */
    lemma Standing(t: Tree)
      ensures this !in Objects(t, true) && heap !in Objects(t, true)
      ensures t.node in Objects(t, true) && Buffers(t.name) <= Objects(t, true)
      ensures !Borrows(t, true) ==> Buffers(t.str) + ObjectsOf(t.kids, true) <= Objects(t, true)
    {
      Apart(this, t, true);
      HeapApart(heap, t, true);
      Parts(t, true);
    }

    /** `rest` is still to be appended to make `all`, and no request for it goes further than `peak`. */
    ghost predicate Pending(all: bytes, rest: bytes, peak: nat)
      reads this, heap, buffer
    {
      Coherent() && Written() + rest == all && offset + peak <= ceiling
    }

    lemma Begin(rest: bytes, peak: nat)
      requires Coherent() && offset + peak <= ceiling
      ensures Pending(Written() + rest, rest, peak)
    {
      hide Coherent;
    }

    lemma Finish(all: bytes, peak: nat)
      requires Pending(all, [], peak)
      ensures Coherent() && Written() == all
    {
      hide Coherent;
      assert Written() + [] == Written();
    }

    /** The loop over the children of an array; `depth` is that of the items. */
    method PrintItems(item: Node, depth: nat, fmt: bool, ghost t: Tree)
      requires item == t.node && t.kind == KArray && Valid(t, true) && WellTyped(t)
      requires Coherent() && buffer !in Objects(t, true)
      requires offset + ItemsPeak(ItemsOf(t.kids), depth, fmt) <= ceiling
      modifies this, heap, buffer
      ensures Coherent() && Written() == old(Written()) + ItemsText(ItemsOf(t.kids), depth, fmt)
      ensures buffer == old(buffer) || fresh(buffer)
      decreases t, 2
    {
      hide Valid, WellTyped, Objects, ItemsText, ItemsPeak, Pending, Bounded, Reachable, Walking;
      Standing(t);
      assert allocated(Objects(t, true));
      WalkStart(t);
      ghost var i, items := 0, ItemsOf(t.kids);
      ghost var all := Written() + ItemsText(items, depth, fmt);
      Begin(ItemsText(items, depth, fmt), ItemsPeak(items, depth, fmt));
      assert items[0..] == items;
      var child := item.child;
      while child != null
        invariant (buffer == old(buffer) || fresh(buffer)) && Walking(child, i, t) && i <= |t.kids|
        invariant Pending(all, ItemsText(items[i..], depth, fmt), ItemsPeak(items[i..], depth, fmt))
        decreases |t.kids| - i
      {
        WalkStep(child, i, t);
        child := PrintItem(child, i, depth, fmt, all, t);
        i := i + 1;
      }
      WalkEnd(i, t);
      NothingMore(depth, fmt);
      assert items[i..] == [];
      Finish(all, ItemsPeak([], depth, fmt));
    }

    /** One item and its separator. */
    method PrintItem(child: Node, ghost i: nat, depth: nat, fmt: bool, ghost all: bytes, ghost t: Tree)
      returns (next: Node?)
      requires t.kind == KArray && i < |t.kids| && Walking(child, i, t) && buffer !in Objects(t, true)
      requires var rest := ItemsOf(t.kids)[i..]; Pending(all, ItemsText(rest, depth, fmt), ItemsPeak(rest, depth, fmt))
      modifies this, heap, buffer
      ensures next == child.next && Walking(next, i + 1, t)
      ensures
        var rest := ItemsOf(t.kids)[i + 1..];
        Pending(all, ItemsText(rest, depth, fmt), ItemsPeak(rest, depth, fmt))
      ensures buffer == old(buffer) || fresh(buffer)
      decreases t, 1
    {
      hide Valid, WellTyped, Objects, Text, ItemsText, Peak, ItemsPeak, Bounded, Reachable, Walking;
      Standing(t);
      assert allocated(Objects(t, true));
      WalkStep(child, i, t);
      FirstItem(ItemsOf(t.kids), i, depth, fmt, Written());
      FirstItemPeak(ItemsOf(t.kids), i, depth, fmt);
      PrintKid(child, depth, fmt, t.kids[i]);
      WalkStep(child, i, t);
      NextKid(child, i, t);
      next := child.next;
      if next != null {
        PutTerminated(if fmt then [COMMA, SPACE] else [COMMA]);
      } else {
        assert Written() + [] == Written();
      }
    }

    // Objects

    method PrintObject(item: Node, depth: nat, fmt: bool, ghost t: Tree) returns (out: nat)
      requires item == t.node && t.kind == KObject && Valid(t, true) && WellTyped(t)
      requires Coherent() && buffer !in Objects(t, true) && offset + Peak(ToJson(t), depth, fmt) <= ceiling
      modifies this, heap, buffer
      ensures Coherent() && Advanced(old(offset), |Text(ToJson(t), depth, fmt)|)
      ensures Reads(buffer, old(Written()) + Text(ToJson(t), depth, fmt))
      ensures buffer == old(buffer) || fresh(buffer)
      ensures out == Returned(ToJson(t), depth, fmt, old(offset))
      decreases t, 4
    {
      hide Valid, WellTyped, Objects, Text, Peak, Bounded, Reachable, EmptyObjectText, Reads;
      EmptyText(t, depth, fmt);
      Standing(t);
      assert allocated(Objects(t, true));
      var numentries := CountKids(item, t);
      var i := offset;
      if numentries == 0 {
        EmptyObject(depth, fmt);
      } else {
        ComposeMembers(item, depth, fmt, t);
        if fmt {
          i := depth; // left behind by the loop that writes the closing tabs
        }
      }
      out := i;
    }

    method ComposeMembers(item: Node, depth: nat, fmt: bool, ghost t: Tree)
      requires item == t.node && t.kind == KObject && t.kids != [] && Valid(t, true) && WellTyped(t)
      requires Coherent() && buffer !in Objects(t, true) && offset + Peak(ToJson(t), depth, fmt) <= ceiling
      modifies this, heap, buffer
      ensures Coherent() && Advanced(old(offset), |Text(ToJson(t), depth, fmt)|)
      ensures Reads(buffer, old(Written()) + Text(ToJson(t), depth, fmt))
      ensures buffer == old(buffer) || fresh(buffer)
      decreases t, 3
    {
      hide Valid, WellTyped, Objects, Text, MembersText, Peak, MembersPeak, Bounded, Reachable, Tabs, Reads;
      ghost var start, open, members := Written(), OpenBrace(fmt), MembersText(MembersOf(t.kids), depth + 1, fmt);
      NonEmptyText(t, depth, fmt, start);
      Standing(t);
      assert allocated(Objects(t, true));
      PutTerminated(if fmt then [OPEN_BRACE, NEWLINE] else [OPEN_BRACE]);
      assert Written() == start + open;
      PrintMembers(item, depth + 1, fmt, t);
      CloseMembers(depth + 1, fmt);
    }

    method EmptyObject(depth: nat, fmt: bool)
      requires Coherent() && offset + (if fmt then depth + 4 else 3) <= ceiling
      modifies this, heap, buffer
      ensures Coherent() && offset == old(offset) && Reads(buffer, old(Written()) + EmptyObjectText(depth, fmt))
      ensures buffer == old(buffer) || fresh(buffer)
    {
      hide Bounded, Reachable, EmptyObjectText;
      Ensure(if fmt then depth + 4 else 3);
      PutEmptyObject(depth, fmt, buffer, offset);
    }

    method CloseMembers(depth: nat, fmt: bool)
      requires Coherent() && depth >= 1 && offset + (if fmt then depth + 1 else 2) <= ceiling
      modifies this, heap, buffer
      ensures Coherent() && offset == old(offset)
      ensures Reads(buffer, old(Written()) + (if fmt then Tabs(depth - 1) else []) + [CLOSE_BRACE])
      ensures buffer == old(buffer) || fresh(buffer)
    {
      hide Bounded, Reachable, Tabs;
      Ensure(if fmt then depth + 1 else 2);
      CloseObject(depth, fmt, buffer, offset);
    }

    /** The loop over the children of an object; `depth` is that of the members. */
    method PrintMembers(item: Node, depth: nat, fmt: bool, ghost t: Tree)
      requires item == t.node && t.kind == KObject && Valid(t, true) && WellTyped(t)
      requires Coherent() && buffer !in Objects(t, true)
      requires offset + MembersPeak(MembersOf(t.kids), depth, fmt) <= ceiling
      modifies this, heap, buffer
      ensures Coherent() && Written() == old(Written()) + MembersText(MembersOf(t.kids), depth, fmt)
      ensures buffer == old(buffer) || fresh(buffer)
      decreases t, 2
    {
      hide Valid, WellTyped, Objects, MembersText, MembersPeak, Pending, Bounded, Reachable, Walking;
      Standing(t);
      assert allocated(Objects(t, true));
      WalkStart(t);
      ghost var i, members := 0, MembersOf(t.kids);
      ghost var all := Written() + MembersText(members, depth, fmt);
      Begin(MembersText(members, depth, fmt), MembersPeak(members, depth, fmt));
      assert members[0..] == members;
      var child := item.child;
      while child != null
        invariant (buffer == old(buffer) || fresh(buffer)) && Walking(child, i, t) && i <= |t.kids|
        invariant Pending(all, MembersText(members[i..], depth, fmt), MembersPeak(members[i..], depth, fmt))
        decreases |t.kids| - i
      {
        WalkStep(child, i, t);
        child := PrintMember(child, i, depth, fmt, all, t);
        i := i + 1;
      }
      WalkEnd(i, t);
      NothingMore(depth, fmt);
      assert members[i..] == [];
      Finish(all, MembersPeak([], depth, fmt));
    }

    /** One member: indentation, name, colon, value, separator. */
    method PrintMember(child: Node, ghost i: nat, depth: nat, fmt: bool, ghost all: bytes, ghost t: Tree)
      returns (next: Node?)
      requires t.kind == KObject && i < |t.kids| && Walking(child, i, t) && buffer !in Objects(t, true)
      requires
        var rest := MembersOf(t.kids)[i..]; Pending(all, MembersText(rest, depth, fmt), MembersPeak(rest, depth, fmt))
      modifies this, heap, buffer
      ensures next == child.next && Walking(next, i + 1, t)
      ensures
        var rest := MembersOf(t.kids)[i + 1..];
        Pending(all, MembersText(rest, depth, fmt), MembersPeak(rest, depth, fmt))
      ensures buffer == old(buffer) || fresh(buffer)
      decreases t, 1
    {
      hide Valid, WellTyped, Objects, Text, NameText, MembersText, Peak, MembersPeak, Bounded, Reachable, Walking;
      Standing(t);
      assert allocated(Objects(t, true));
      WalkStep(child, i, t);
      FirstMember(MembersOf(t.kids), i, depth, fmt, Written());
      FirstMemberPeak(MembersOf(t.kids), i, depth, fmt);
      PrintNamed(child, depth, fmt, t.kids[i]);
      WalkStep(child, i, t);
      NextKid(child, i, t);
      next := child.next;
      PutTerminated((if next != null then [COMMA] else []) + (if fmt then [NEWLINE] else []));
    }

    /** A member without its separator. */
    method PrintNamed(child: Node, depth: nat, fmt: bool, ghost t: Tree)
      requires child == t.node && Valid(t, true) && WellTyped(t) && t.name.CString?
      requires Coherent() && buffer !in Objects(t, true)
      requires offset + |NameText(t.name.chars, depth, fmt)| + Peak(ToJson(t), depth, fmt) <= ceiling
      modifies this, heap, buffer
      ensures Coherent()
        && Written() == old(Written()) + NameText(t.name.chars, depth, fmt) + Text(ToJson(t), depth, fmt)
      ensures buffer == old(buffer) || fresh(buffer)
      decreases t, 7
    {
      hide Valid, WellTyped, Objects, Text, NameText, Peak, Bounded, Reachable;
      Standing(t);
      assert allocated(Objects(t, true));
      PrintName(child, depth, fmt, t);
      PrintKid(child, depth, fmt, t);
    }

    method Indent(depth: nat, fmt: bool)
      requires Coherent() && (fmt ==> offset + depth <= ceiling)
      modifies this, heap, buffer
      ensures Coherent() && Written() == old(Written()) + (if fmt then Tabs(depth) else [])
      ensures buffer == old(buffer) || fresh(buffer)
    {
      hide Bounded, Reachable;
      if fmt {
        Ensure(depth);
        offset := PutTabs(depth, buffer, offset);
      } else {
        assert Written() + [] == Written();
      }
    }

    method PrintName(child: Node, depth: nat, fmt: bool, ghost t: Tree)
      requires child == t.node && Valid(t, true) && t.name.CString?
      requires Coherent() && buffer !in Objects(t, true)
        && offset + |NameText(t.name.chars, depth, fmt)| <= ceiling
      modifies this, heap, buffer
      ensures Coherent() && Written() == old(Written()) + NameText(t.name.chars, depth, fmt)
      ensures buffer == old(buffer) || fresh(buffer)
    {
      hide Valid, Objects, StringText, Bounded, Reachable, Tabs;
      HeadFields(t, true);
      Standing(t);
      assert allocated(Objects(t, true));
      EscapeNulFree(t.name.chars);
      ghost var start, text := Written(), StringText(t.name.chars);
      ghost var tabs, colon := if fmt then Tabs(depth) else [], if fmt then [COLON, TAB] else [COLON];
      Indent(depth, fmt);
      HeadFields(t, true);
      var _ := PrintString(child.name, t.name.chars);
      TailNulFree(start + tabs, text, offset);
      Update(start + tabs + text);
      Put(if fmt then [COLON, TAB] else [COLON]);
      Assoc(start, tabs, text);
      Assoc(start, tabs + text, colon);
    }

    // Values

    /** Prints a child and moves the offset behind its text. */
    method PrintKid(child: Node, depth: nat, fmt: bool, ghost t: Tree)
      requires child == t.node && Valid(t, true) && WellTyped(t)
      requires Coherent() && buffer !in Objects(t, true) && offset + Peak(ToJson(t), depth, fmt) <= ceiling
      modifies this, heap, buffer
      ensures Coherent() && Written() == old(Written()) + Text(ToJson(t), depth, fmt)
      ensures buffer == old(buffer) || fresh(buffer)
      decreases t, 6
    {
      hide Valid, WellTyped, Objects, Text, Peak, Bounded, Reachable;
      ghost var start, text := Written(), Text(ToJson(t), depth, fmt);
      PrintableValue(t);
      TextNulFree(ToJson(t), depth, fmt);
      var _ := PrintValue(child, depth, fmt, t);
      TailNulFree(start, text, offset);
      Update(start + text);
    }

    method PrintValue(item: Node, depth: nat, fmt: bool, ghost t: Tree) returns (out: nat)
      requires item == t.node && Valid(t, true) && WellTyped(t)
      requires Coherent() && buffer !in Objects(t, true) && offset + Peak(ToJson(t), depth, fmt) <= ceiling
      modifies this, heap, buffer
      ensures Coherent() && Advanced(old(offset), |Text(ToJson(t), depth, fmt)|)
      ensures Reads(buffer, old(Written()) + Text(ToJson(t), depth, fmt))
      ensures buffer == old(buffer) || fresh(buffer)
      ensures out == Returned(ToJson(t), depth, fmt, old(offset))
      decreases t, 5
    {
      hide Valid, WellTyped, Holds, ItemsText, MembersText, ItemsPeak, MembersPeak, StringText, IntText;
      hide Objects, Bounded, Reachable;
      HeadFields(t, true);
      LeafTypes(t);
      Standing(t);
      match item.kind {
        case KNull => PutLast(NULL_WORD); out := offset;
        case KFalse => PutLast(FALSE_WORD); out := offset;
        case KTrue => PutLast(TRUE_WORD); out := offset;
        case KNumber => out := PrintNumber(item);
        case KString => out := PrintString(item.valueString, t.str.chars);
        case KArray => out := PrintArray(item, depth, fmt, t);
        case KObject => out := PrintObject(item, depth, fmt, t);
      }
    }
  }

  lemma ArrayRequests(t: Tree, depth: nat, fmt: bool)
    requires t.kind == KArray
    ensures Peak(ToJson(t), depth, fmt) >= 3 && Peak(ToJson(t), depth, fmt) > |Text(ToJson(t), depth, fmt)|
    ensures t.kids != [] ==> Peak(ToJson(t), depth, fmt) >= 1 + ItemsPeak(ItemsOf(t.kids), depth + 1, fmt)
  {
    hide ItemsPeak;
    if t.kids == [] {
      NothingMore(depth + 1, fmt);
    }
  }

  lemma NothingMore(depth: nat, fmt: bool)
    ensures ItemsText([], depth, fmt) == [] && MembersText([], depth, fmt) == []
  {
  }

  lemma ArrayPieces(start: bytes, items: bytes)
    ensures start + [OPEN_BRACKET] + items + [CLOSE_BRACKET] == start + ([OPEN_BRACKET] + items + [CLOSE_BRACKET])
  {
  }

  lemma TailNulFree(start: bytes, text: bytes, at: int)
    requires NulFree(text) && |start| <= at <= |start + text|
    ensures NulFree((start + text)[at..])
  {
  }

  lemma NextKid(child: Node, i: nat, t: Tree)
    requires Walking(child, i, t) && i < |t.kids|
    ensures child.next == null <==> i + 1 == |t.kids|
  {
    hide Valid, WellTyped;
    KidAt(t, i);
  }

  /** Where print_value's result points: print_object reuses the variable that held its start. */
  function Returned(v: Json, depth: nat, fmt: bool, start: int): int {
    if v.Object? && v.members != [] && fmt then depth else start
  }

  function OpenBrace(fmt: bool): bytes {
    [OPEN_BRACE] + (if fmt then [NEWLINE] else [])
  }

  lemma EmptyText(t: Tree, depth: nat, fmt: bool)
    requires t.kind == KObject
    ensures t.kids == [] ==> Text(ToJson(t), depth, fmt) == EmptyObjectText(depth, fmt)
    ensures t.kids == [] ==> Peak(ToJson(t), depth, fmt) == if fmt then depth + 4 else 3
    ensures ToJson(t) == Object(MembersOf(t.kids))
  {
  }

  /** The text of an object with members, cut where it is written. */
  lemma NonEmptyText(t: Tree, depth: nat, fmt: bool, start: bytes)
    requires t.kind == KObject && t.kids != []
    ensures
      var open, members := OpenBrace(fmt), MembersText(MembersOf(t.kids), depth + 1, fmt);
      var tabs := if fmt then Tabs(depth) else [];
      && start + open + members + tabs + [CLOSE_BRACE] == start + Text(ToJson(t), depth, fmt)
      && |Text(ToJson(t), depth, fmt)| == |open| + |members| + |tabs| + 1 && (|tabs| == if fmt then depth else 0)
      && Peak(ToJson(t), depth, fmt) >= |open| + MembersPeak(MembersOf(t.kids), depth + 1, fmt)
      && Peak(ToJson(t), depth, fmt) >= |Text(ToJson(t), depth, fmt)| + 1
      && MembersPeak(MembersOf(t.kids), depth + 1, fmt) >= 2
  {
    hide MembersText, MembersPeak;
    var open, members := OpenBrace(fmt), MembersText(MembersOf(t.kids), depth + 1, fmt);
    var tabs := if fmt then Tabs(depth) else [];
    assert start + open + members + tabs + [CLOSE_BRACE] == start + (open + members + tabs + [CLOSE_BRACE]);
  }

  /** cJSON_PrintBuffered: the text starts where the last buffer starts, and that buffer is all that stays allocated. */
  method PrintBuffered(h: Heap, item: Node?, prebuffer: nat, fmt: bool, ghost t: Tree)
    returns (out: array?<byte>, start: nat, ghost p: PrintBuffer)
    requires item != null ==> item == t.node && Valid(t, true) && WellTyped(t)
    requires item != null ==> Peak(ToJson(t), 0, fmt) <= Ceiling(prebuffer)
    modifies h
    ensures fresh(p) && p.Coherent() && fresh(p.buffer) && h.live == old(h.live) + {p.buffer}
    ensures item == null <==> out == null
    ensures item != null ==> out == p.buffer && start == 0 && Holds(out, Text(ToJson(t), 0, fmt))
    ensures p.copied > 0 ==> p.copied < p.buffer.Length && IsPowerOfTwo(p.buffer.Length)
  {
    hide Valid, WellTyped, Text, Peak, Objects, IsPowerOfTwo;
    if item != null {
      HeapApart(h, t, true);
      Parts(t, true);
      assert allocated(Objects(t, true));
      PrintableValue(t);
      TextNulFree(ToJson(t), 0, fmt);
    }
    var buffer := new PrintBuffer(h, prebuffer);
    p := buffer;
    if item == null {
      return null, 0, p;
    }
    start := buffer.PrintValue(item, 0, fmt, t);
    out := buffer.buffer;
    assert [] + Text(ToJson(t), 0, fmt) == Text(ToJson(t), 0, fmt);
  }
}
