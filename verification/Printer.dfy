/** The unbuffered printer: every entry is printed on its own, measured, and copied into one block. */
module Printer {
  import opened Bytes
  import opened Json
  import opened PrintText
  import opened Nodes
  import opened Allocator
  import opened Blocks
  import opened Lists
  import opened CStrings
  import opened Rendering
  import opened TreeText

  const DBL_EPSILON: real := 1.0 / 4503599627370496.0

  function Abs(x: real): real {
    if x < 0.0 then -x else x
  }

  // What the size computations of print_array and print_object add up to

  function EntriesLength(items: seq<Json>, depth: nat, fmt: bool): nat {
    if items == [] then 0
    else |Text(items[0], depth, fmt)| + 2 + (if fmt then 1 else 0) + EntriesLength(items[1..], depth, fmt)
  }

  /**
   * The estimate of print_array covers what is composed, to which `len` adds 5: it is too long by a byte for each
   * element and by the separator that the last one does not have.
   */
  lemma {:induction false} ItemsFit(items: seq<Json>, depth: nat, fmt: bool)
    ensures EntriesLength(items, depth, fmt) == |ItemsText(items, depth, fmt)|
      + if items == [] then 0 else |items| + if fmt then 2 else 1
  {
    hide Text;
    if items != [] {
      ItemsFit(items[1..], depth, fmt);
    }
  }

  function MembersLength(members: seq<Member>, depth: nat, fmt: bool): nat {
    if members == [] then 0
    else
      |Text(members[0].value, depth, fmt)| + |StringText(members[0].name)| + 2 + (if fmt then 2 + depth else 0)
      + MembersLength(members[1..], depth, fmt)
  }

  /**
   * The estimate of print_object covers what is composed, to which `len` adds 7 and, formatted, the depth: only the
   * comma that the last member does not have is too much.
   */
  lemma {:induction false} MembersFit(members: seq<Member>, depth: nat, fmt: bool)
    ensures MembersLength(members, depth, fmt) == |MembersText(members, depth, fmt)| + if members == [] then 0 else 1
  {
    hide Text, StringText;
    if members != [] {
      MembersFit(members[1..], depth, fmt);
    }
  }

  // Leaves

  /** cJSON_strdup of a literal. */
  method PrintWord(h: Heap, word: bytes) returns (out: array<byte>)
    requires NulFree(word)
    modifies h
    ensures fresh(out) && Holds(out, word) && h.live == old(h.live) + {out}
  {
    out := h.Malloc(|word| + 1);
    Strcpy(out, 0, word);
    assert [] + word == word;
  }

  method PrintNumber(h: Heap, item: Node) returns (out: array<byte>)
    requires IsInt32(item.valueDouble) && item.valueInt == item.valueDouble.Floor
    modifies h
    ensures fresh(out) && Holds(out, IntText(old(item.valueDouble).Floor)) && h.live == old(h.live) + {out}
  {
    var d := item.valueDouble;
    IntFits(item.valueInt);
    IntegerNulFree(item.valueInt);
    var text := IntText(item.valueInt);
    assert [] + text == text;
    if d == 0.0 {
      out := h.Malloc(2);
      assert [] + [48] == text;
      Strcpy(out, 0, [48]);
    } else if Abs(item.valueInt as real - d) <= DBL_EPSILON && d <= INT_MAX as real && d >= INT_MIN as real {
      out := h.Malloc(21);
      Strcpy(out, 0, text);
    } else {
      assert false;
    }
  }

  method PrintString(h: Heap, str: array<byte>, ghost s: bytes) returns (out: array<byte>)
    requires Holds(str, s)
    modifies h
    ensures fresh(out) && Holds(out, StringText(s)) && h.live == old(h.live) + {out}
  {
    EscapeNulFree(s);
    var flag, size := MeasureString(str, s);
    out := h.Malloc(size);
    FillString(str, s, flag, out, 0);
    assert [] + StringText(s) == StringText(s);
  }

  // Arrays

  function ItemTexts(items: seq<Json>, depth: nat, fmt: bool): (texts: seq<bytes>)
    ensures |texts| == |items| && forall k :: 0 <= k < |items| ==> texts[k] == Text(items[k], depth, fmt)
  {
    seq(|items|, k requires 0 <= k < |items| => Text(items[k], depth, fmt))
  }

  method CountKids(item: Node, ghost t: Tree) returns (n: nat)
    requires item == t.node && Valid(t, true)
    ensures n == |t.kids|
  {
    hide Valid;
    HeadFields(t, true);
    n := 0;
    var child := item.child;
    while child != null
      invariant n <= |t.kids| && child == First(t.kids[n..]) && Valid(t, true)
      decreases |t.kids| - n
    {
      KidAt(t, n);
      n := n + 1;
      child := child.next;
    }
  }

  /** Copies the entries into the block, separated and closed, and frees them. */
  method ComposeArray(h: Heap, entries: array<array?<byte>>, ghost items: seq<Json>, depth: nat, fmt: bool,
                      out: array<byte>)
    requires entries.Length == |items| && Stack(entries, 0, |items|, ItemTexts(items, depth, fmt))
    requires BlocksOf(entries, 0, |items|) <= h.live && entries in h.live && out !in BlocksOf(entries, 0, |items|)
    requires out.Length == 5 + EntriesLength(items, depth, fmt)
    modifies h, entries, out, BlocksOf(entries, 0, |items|)
    ensures Reads(out, [OPEN_BRACKET] + ItemsText(items, depth, fmt) + [CLOSE_BRACKET])
    ensures h.live == old(h.live - BlocksOf(entries, 0, |items|) - {entries})
  {
    hide Stack, BlocksOf, ItemTexts, EntriesLength, ItemsText;
    BlocksApart(h, entries, 0, |items|);
    BlocksApart(entries, entries, 0, |items|);
    ItemsFit(items, depth, fmt);
    out[0] := OPEN_BRACKET;
    out[1] := 0;
    assert out[..1] == [OPEN_BRACKET];
    var ptr := FillItems(h, entries, items, depth, fmt, out, 1);
    h.FreePointers(entries);
    out[ptr] := CLOSE_BRACKET;
    out[ptr + 1] := 0;
  }

  method FillItems(h: Heap, entries: array<array?<byte>>, ghost items: seq<Json>, depth: nat, fmt: bool,
                   out: array<byte>, at: nat)
    returns (ptr: nat)
    requires entries.Length == |items| && Stack(entries, 0, |items|, ItemTexts(items, depth, fmt))
    requires BlocksOf(entries, 0, |items|) <= h.live && out !in BlocksOf(entries, 0, |items|)
    requires at + |ItemsText(items, depth, fmt)| + 2 <= out.Length
    modifies h, out, BlocksOf(entries, 0, |items|)
    ensures ptr == at + |ItemsText(items, depth, fmt)| && out[..ptr] == old(out[..at]) + ItemsText(items, depth, fmt)
    ensures h.live == old(h.live) - old(BlocksOf(entries, 0, |items|))
  {
    hide Text, Stack, BlocksOf, ItemTexts;
    ghost var all, blocks := out[..at] + ItemsText(items, depth, fmt), BlocksOf(entries, 0, |items|);
    ptr := at;
    var i := 0;
    assert items[0..] == items;
    while i < entries.Length
      invariant i <= |items| && ptr + |ItemsText(items[i..], depth, fmt)| + 2 <= out.Length
      invariant out[..ptr] + ItemsText(items[i..], depth, fmt) == all
      invariant Stack(entries, i, |items|, ItemTexts(items, depth, fmt))
      invariant BlocksOf(entries, i, |items|) <= blocks && BlocksOf(entries, i, |items|) <= h.live
      invariant h.live == old(h.live) - (blocks - BlocksOf(entries, i, |items|))
    {
      ptr := AppendEntry(h, entries, i, items, depth, fmt, out, ptr);
      i := i + 1;
    }
    NoBlocks(entries, i, ItemTexts(items, depth, fmt));
    assert out[..ptr] == all;
  }

  /** One entry and its separator. */
  method AppendEntry(h: Heap, entries: array<array?<byte>>, i: nat, ghost items: seq<Json>, depth: nat, fmt: bool,
                     out: array<byte>, at: nat)
    returns (ptr: nat)
    requires entries.Length == |items| && i < |items| && Stack(entries, i, |items|, ItemTexts(items, depth, fmt))
    requires BlocksOf(entries, i, |items|) <= h.live && out !in BlocksOf(entries, i, |items|)
    requires at + |ItemsText(items[i..], depth, fmt)| + 2 <= out.Length
    modifies h, out, BlocksOf(entries, i, |items|)
    ensures at <= ptr && ptr + |ItemsText(items[i + 1..], depth, fmt)| + 2 <= out.Length
    ensures out[..ptr] + ItemsText(items[i + 1..], depth, fmt) == old(out[..at]) + ItemsText(items[i..], depth, fmt)
    ensures Stack(entries, i + 1, |items|, ItemTexts(items, depth, fmt))
    ensures old(BlocksOf(entries, i, |items|)) == BlocksOf(entries, i, |items|)
    ensures BlocksOf(entries, i + 1, |items|) <= BlocksOf(entries, i, |items|)
    ensures BlocksOf(entries, i + 1, |items|) <= h.live
    ensures h.live == old(h.live) - (BlocksOf(entries, i, |items|) - BlocksOf(entries, i + 1, |items|))
  {
    hide Text, Holds, ItemsText, Stack, BlocksOf, ItemTexts;
    FirstItem(items, i, depth, fmt, out[..at]);
    FirstBlock(entries, i, |items|, ItemTexts(items, depth, fmt));
    ghost var text := Text(items[i], depth, fmt);
    var tmplen := Strlen(entries[i], text);
    ptr := CopyChars(entries[i], text, tmplen, out, at);
    if i != entries.Length - 1 {
      ptr := PutBytes(if fmt then [COMMA, SPACE] else [COMMA], out, ptr);
      out[ptr] := 0;
    } else {
      assert out[..ptr] + [] == out[..ptr];
    }
    Pop(h, entries, i, |items|, ItemTexts(items, depth, fmt));
  }

  /** The text from item `i` on, cut where the composition is cut. */
  lemma FirstItem(items: seq<Json>, i: nat, depth: nat, fmt: bool, before: bytes)
    requires i < |items|
    ensures
      var text, separator := Text(items[i], depth, fmt), ItemSeparator(i + 1 < |items|, fmt);
      var rest := ItemsText(items[i + 1..], depth, fmt);
      && before + text + separator + rest == before + ItemsText(items[i..], depth, fmt)
      && |ItemsText(items[i..], depth, fmt)| == |text| + |separator| + |rest|
  {
    hide Text, ItemSeparator;
    assert items[i..][1..] == items[i + 1..];
    var text, separator := Text(items[i], depth, fmt), ItemSeparator(i + 1 < |items|, fmt);
    Assoc(before, text, separator);
    Assoc(before, text + separator, ItemsText(items[i + 1..], depth, fmt));
  }

  // Objects

  function NameTexts(members: seq<Member>): (texts: seq<bytes>)
    ensures |texts| == |members| && forall k :: 0 <= k < |members| ==> texts[k] == StringText(members[k].name)
  {
    seq(|members|, k requires 0 <= k < |members| => StringText(members[k].name))
  }

  function ValueTexts(members: seq<Member>, depth: nat, fmt: bool): (texts: seq<bytes>)
    ensures |texts| == |members| && forall k :: 0 <= k < |members| ==> texts[k] == Text(members[k].value, depth, fmt)
  {
    seq(|members|, k requires 0 <= k < |members| => Text(members[k].value, depth, fmt))
  }

  /** The texts of members `i` to `n`, names and values, all in blocks of their own. */
  ghost predicate Stacks(names: array<array?<byte>>, entries: array<array?<byte>>, i: nat, n: nat, members: seq<Member>,
                         depth: nat, fmt: bool)
    reads names, entries, BlocksOf(names, i, n), BlocksOf(entries, i, n)
  {
    && names != entries && names.Length == entries.Length == |members|
    && Stack(names, i, n, NameTexts(members)) && Stack(entries, i, n, ValueTexts(members, depth, fmt))
    && BlocksOf(names, i, n) !! BlocksOf(entries, i, n)
  }

  ghost function Pile(names: array<array?<byte>>, entries: array<array?<byte>>, i: nat, n: nat): set<object>
    reads names, entries
  {
    BlocksOf(names, i, n) + BlocksOf(entries, i, n)
  }

  /** The allocator and the pointer arrays themselves are apart from the blocks. */
  lemma PileApart(h: Heap, names: array<array?<byte>>, entries: array<array?<byte>>, i: nat, n: nat)
    ensures h !in Pile(names, entries, i, n)
    ensures names !in Pile(names, entries, i, n) && entries !in Pile(names, entries, i, n)
    ensures BlocksOf(names, i, n) <= Pile(names, entries, i, n) && BlocksOf(entries, i, n) <= Pile(names, entries, i, n)
  {
    hide BlocksOf;
    BlocksApart(h, names, i, n);
    BlocksApart(h, entries, i, n);
    BlocksApart(names, names, i, n);
    BlocksApart(names, entries, i, n);
    BlocksApart(entries, names, i, n);
    BlocksApart(entries, entries, i, n);
  }

  lemma NoStacks(names: array<array?<byte>>, entries: array<array?<byte>>, i: nat, members: seq<Member>, depth: nat,
                 fmt: bool)
    requires names != entries && names.Length == entries.Length == |members| && i <= |members|
    ensures Stacks(names, entries, i, i, members, depth, fmt) && Pile(names, entries, i, i) == {}
  {
    NoBlocks(names, i, NameTexts(members));
    NoBlocks(entries, i, ValueTexts(members, depth, fmt));
  }

  lemma StacksLength(names: array<array?<byte>>, entries: array<array?<byte>>, i: nat, n: nat, members: seq<Member>,
                     depth: nat, fmt: bool)
    requires Stacks(names, entries, i, n, members, depth, fmt)
    ensures names != entries && names.Length == entries.Length == |members| && i <= n <= |members|
  {
  }

  lemma FirstOfBoth(names: array<array?<byte>>, entries: array<array?<byte>>, i: nat, members: seq<Member>, depth: nat,
                    fmt: bool)
    requires Stacks(names, entries, i, |members|, members, depth, fmt) && i < |members|
    ensures names.Length == entries.Length == |members|
    ensures names[i] != null && Holds(names[i], StringText(members[i].name))
    ensures names[i] in Pile(names, entries, i, |members|)
    ensures entries[i] != null && Holds(entries[i], Text(members[i].value, depth, fmt))
    ensures entries[i] in Pile(names, entries, i, |members|)
  {
    hide Text, StringText, Holds;
    FirstBlock(names, i, |members|, NameTexts(members));
    FirstBlock(entries, i, |members|, ValueTexts(members, depth, fmt));
  }

  /** Frees the name and the text of a member. */
  method PopBoth(h: Heap, names: array<array?<byte>>, entries: array<array?<byte>>, i: nat, ghost members: seq<Member>,
                 ghost depth: nat, ghost fmt: bool)
    requires Stacks(names, entries, i, |members|, members, depth, fmt) && i < |members|
    requires Pile(names, entries, i, |members|) <= h.live
    modifies h, Pile(names, entries, i, |members|)
    ensures Stacks(names, entries, i + 1, |members|, members, depth, fmt)
    ensures old(Pile(names, entries, i, |members|)) == Pile(names, entries, i, |members|)
    ensures Pile(names, entries, i + 1, |members|) <= Pile(names, entries, i, |members|)
    ensures Pile(names, entries, i + 1, |members|) <= h.live
    ensures h.live == old(h.live) - (Pile(names, entries, i, |members|) - Pile(names, entries, i + 1, |members|))
  {
    hide Stack, BlocksOf, NameTexts, ValueTexts;
    PileApart(h, names, entries, i, |members|);
    Pop(h, names, i, |members|, NameTexts(members));
    Pop(h, entries, i, |members|, ValueTexts(members, depth, fmt));
  }

  /** Copies names and values into the block and frees them; `depth` is already that of the members. */
  method ComposeObject(h: Heap, names: array<array?<byte>>, entries: array<array?<byte>>, ghost members: seq<Member>,
                       depth: nat, fmt: bool, out: array<byte>)
    requires depth >= 1 && Stacks(names, entries, 0, |members|, members, depth, fmt)
    requires Pile(names, entries, 0, |members|) <= h.live && out !in Pile(names, entries, 0, |members|)
    requires names in h.live && entries in h.live
    requires out.Length == 7 + (if fmt then depth else 0) + MembersLength(members, depth, fmt)
    modifies h, names, entries, out, Pile(names, entries, 0, |members|)
    ensures Reads(out, [OPEN_BRACE] + (if fmt then [NEWLINE] else []) + MembersText(members, depth, fmt)
                       + (if fmt then Tabs(depth - 1) else []) + [CLOSE_BRACE])
    ensures h.live == old(h.live - Pile(names, entries, 0, |members|) - {names} - {entries})
  {
    hide Text, Stacks, Pile, MembersLength, MembersText, Tabs;
    StacksLength(names, entries, 0, |members|, members, depth, fmt);
    PileApart(h, names, entries, 0, |members|);
    MembersFit(members, depth, fmt);
    out[0] := OPEN_BRACE;
    var ptr := 1;
    if fmt {
      out[ptr] := NEWLINE;
      ptr := ptr + 1;
    }
    out[ptr] := 0;
    assert out[..ptr] == [OPEN_BRACE] + (if fmt then [NEWLINE] else []);
    ptr := FillMembers(h, names, entries, members, depth, fmt, out, ptr);
    h.FreePointers(names);
    h.FreePointers(entries);
    CloseObject(depth, fmt, out, ptr);
  }

  method CloseObject(depth: nat, fmt: bool, out: array<byte>, at: nat)
    requires depth >= 1 && at + (if fmt then depth - 1 else 0) + 1 < out.Length
    modifies out
    ensures Reads(out, old(out[..at]) + (if fmt then Tabs(depth - 1) else []) + [CLOSE_BRACE])
  {
    ghost var before := out[..at];
    var ptr := at;
    if fmt {
      ptr := PutTabs(depth - 1, out, ptr);
    } else {
      assert before + [] == before;
    }
    out[ptr] := CLOSE_BRACE;
    out[ptr + 1] := 0;
  }

  method FillMembers(h: Heap, names: array<array?<byte>>, entries: array<array?<byte>>, ghost members: seq<Member>,
                     depth: nat, fmt: bool, out: array<byte>, at: nat)
    returns (ptr: nat)
    requires Stacks(names, entries, 0, |members|, members, depth, fmt) && entries.Length == |members|
    requires Pile(names, entries, 0, |members|) <= h.live && out !in Pile(names, entries, 0, |members|)
    requires at + |MembersText(members, depth, fmt)| + 1 <= out.Length
    modifies h, out, Pile(names, entries, 0, |members|)
    ensures ptr == at + |MembersText(members, depth, fmt)|
    ensures out[..ptr] == old(out[..at]) + MembersText(members, depth, fmt)
    ensures h.live == old(h.live) - old(Pile(names, entries, 0, |members|))
  {
    hide Text, Stacks, Pile, MemberText, MemberSeparator;
    ghost var all, blocks := out[..at] + MembersText(members, depth, fmt), Pile(names, entries, 0, |members|);
    ptr := at;
    var i := 0;
    assert members[0..] == members;
    while i < entries.Length
      invariant i <= |members| && ptr + |MembersText(members[i..], depth, fmt)| == |all|
      invariant out[..ptr] + MembersText(members[i..], depth, fmt) == all
      invariant Stacks(names, entries, i, |members|, members, depth, fmt)
      invariant Pile(names, entries, i, |members|) <= blocks && Pile(names, entries, i, |members|) <= h.live
      invariant h.live == old(h.live) - (blocks - Pile(names, entries, i, |members|))
    {
      ptr := AppendMember(h, names, entries, i, members, depth, fmt, out, ptr);
      i := i + 1;
    }
    StacksLength(names, entries, i, |members|, members, depth, fmt);
    NoStacks(names, entries, i, members, depth, fmt);
    assert out[..ptr] == all;
  }

  /** One member: indentation, name, colon, value, separator. */
  method AppendMember(h: Heap, names: array<array?<byte>>, entries: array<array?<byte>>, i: nat,
                      ghost members: seq<Member>, depth: nat, fmt: bool, out: array<byte>, at: nat)
    returns (ptr: nat)
    requires i < |members| && Stacks(names, entries, i, |members|, members, depth, fmt)
    requires Pile(names, entries, i, |members|) <= h.live && out !in Pile(names, entries, i, |members|)
    requires at + |MembersText(members[i..], depth, fmt)| + 1 <= out.Length
    modifies h, out, Pile(names, entries, i, |members|)
    ensures at <= ptr
    ensures ptr + |MembersText(members[i + 1..], depth, fmt)| == at + |MembersText(members[i..], depth, fmt)|
    ensures out[..ptr] + MembersText(members[i + 1..], depth, fmt)
      == old(out[..at]) + MembersText(members[i..], depth, fmt)
    ensures Stacks(names, entries, i + 1, |members|, members, depth, fmt)
    ensures old(Pile(names, entries, i, |members|)) == Pile(names, entries, i, |members|)
    ensures Pile(names, entries, i + 1, |members|) <= Pile(names, entries, i, |members|)
    ensures Pile(names, entries, i + 1, |members|) <= h.live
    ensures h.live == old(h.live) - (Pile(names, entries, i, |members|) - Pile(names, entries, i + 1, |members|))
  {
    hide Text, Holds, Stacks, Pile, StringText, NameText, MemberText, MemberSeparator, MembersText;
    FirstOfBoth(names, entries, i, members, depth, fmt);
    PileApart(h, names, entries, i, |members|);
    FirstMember(members, i, depth, fmt, out[..at]);
    ptr := AppendName(names[i], members[i].name, depth, fmt, out, at);
    ghost var text := Text(members[i].value, depth, fmt);
    var tmplen := Strlen(entries[i], text);
    ptr := CopyChars(entries[i], text, tmplen, out, ptr);
    ptr := AppendSeparator(i != entries.Length - 1, fmt, out, ptr);
    PopBoth(h, names, entries, i, members, depth, fmt);
  }

  /** The text from member `i` on, cut where the composition is cut. */
  lemma FirstMember(members: seq<Member>, i: nat, depth: nat, fmt: bool, before: bytes)
    requires i < |members|
    ensures
      var name, text := NameText(members[i].name, depth, fmt), Text(members[i].value, depth, fmt);
      var separator, rest := MemberSeparator(i + 1 < |members|, fmt), MembersText(members[i + 1..], depth, fmt);
      && before + name + text + separator + rest == before + MembersText(members[i..], depth, fmt)
      && |MembersText(members[i..], depth, fmt)| == |name| + |text| + |separator| + |rest|
  {
    hide Text, NameText, MemberSeparator;
    assert members[i..][1..] == members[i + 1..];
    var name, text := NameText(members[i].name, depth, fmt), Text(members[i].value, depth, fmt);
    var separator, rest := MemberSeparator(i + 1 < |members|, fmt), MembersText(members[i + 1..], depth, fmt);
    Assoc(before, name, text);
    Assoc(before, name + text, separator);
    Assoc(before, name + text + separator, rest);
  }

  method AppendName(name: array<byte>, ghost s: bytes, depth: nat, fmt: bool, out: array<byte>,
                    at: nat) returns (ptr: nat)
    requires Holds(name, StringText(s)) && name != out && at + |NameText(s, depth, fmt)| <= out.Length
    modifies out
    ensures ptr == at + |NameText(s, depth, fmt)| && out[..ptr] == old(out[..at]) + NameText(s, depth, fmt)
  {
    hide Holds, StringText, Tabs;
    ghost var before, tabs, colon := out[..at], if fmt then Tabs(depth) else [], if fmt then [COLON, TAB] else [COLON];
    assert NameText(s, depth, fmt) == tabs + StringText(s) + colon;
    ptr := at;
    if fmt {
      ptr := PutTabs(depth, out, ptr);
    }
    assert out[..ptr] == before + tabs;
    var tmplen := Strlen(name, StringText(s));
    ptr := CopyChars(name, StringText(s), tmplen, out, ptr);
    ptr := PutBytes(if fmt then [COLON, TAB] else [COLON], out, ptr);
    Assoc(before, tabs, StringText(s));
    Assoc(before, tabs + StringText(s), colon);
  }

  method AppendSeparator(more: bool, fmt: bool, out: array<byte>, at: nat) returns (ptr: nat)
    requires at + |MemberSeparator(more, fmt)| < out.Length
    modifies out
    ensures ptr == at + |MemberSeparator(more, fmt)| && out[..ptr] == old(out[..at]) + MemberSeparator(more, fmt)
  {
    ptr := at;
    if more {
      out[ptr] := COMMA;
      ptr := ptr + 1;
    }
    if fmt {
      out[ptr] := NEWLINE;
      ptr := ptr + 1;
    }
    out[ptr] := 0;
  }

  // The recursion over the tree

  /** Between two turns of a loop over the children: `i` are done. */
  ghost predicate Walking(child: Node?, i: nat, t: Tree)
    reads Objects(t, true)
  {
    (Parts(t, true); Valid(t, true)) && WellTyped(t) && i <= |t.kids| && child == First(t.kids[i..])
  }

  lemma WalkStart(t: Tree)
    requires Valid(t, true) && WellTyped(t)
    ensures Walking(t.node.child, 0, t)
  {
    HeadFields(t, true);
  }

  lemma WalkStep(child: Node, i: nat, t: Tree)
    requires Walking(child, i, t) && (t.kind == KArray || t.kind == KObject)
    ensures i < |t.kids| && child == t.kids[i].node && Valid(t.kids[i], true) && WellTyped(t.kids[i])
    ensures child in Objects(t, true) && Walking(child.next, i + 1, t)
    ensures t.kind == KObject ==> t.kids[i].name.CString?
    ensures Objects(t.kids[i], true) <= Objects(t, true)
  {
    hide Objects, Valid;
    KidAt(t, i);
  }

  /** One turn of the collecting loop: the text of the item, and what it adds to `len`. */
  method CollectEntry(h: Heap, child: Node, i: nat, ghost t: Tree, depth: nat, fmt: bool, entries: array<array?<byte>>)
    returns (size: nat, next: Node?, ret: array<byte>)
    requires t.kind == KArray && Walking(child, i, t) && i < |t.kids|
    requires entries.Length == |t.kids| && Stack(entries, 0, i, ItemTexts(ItemsOf(t.kids), depth, fmt))
    modifies h, entries
    ensures Walking(next, i + 1, t) && Stack(entries, 0, i + 1, ItemTexts(ItemsOf(t.kids), depth, fmt))
    ensures fresh(ret) && BlocksOf(entries, 0, i + 1) == old(BlocksOf(entries, 0, i)) + {ret}
    ensures h.live == old(h.live) + {ret}
    ensures size + EntriesLength(ItemsOf(t.kids)[i + 1..], depth, fmt)
      == EntriesLength(ItemsOf(t.kids)[i..], depth, fmt)
    decreases t, 1
  {
    hide Text, Walking, WellTyped, Valid, Objects, Holds, Stack, BlocksOf, ItemTexts;
    ghost var items := ItemsOf(t.kids);
    assert items[i..][1..] == items[i + 1..];
    WalkStep(child, i, t);
    next := child.next;
    BlocksApart(h, entries, 0, i);
    HeapApart(h, t, true);
    Apart(entries, t, true);
    assert allocated(BlocksOf(entries, 0, i)) && allocated(Objects(t, true));
    ret := PrintValue(h, child, depth, fmt, t.kids[i]);
    size := Strlen(ret, Text(items[i], depth, fmt));
    size := size + 2 + if fmt then 1 else 0;
    Push(entries, i, ret, ItemTexts(items, depth, fmt));
  }

  /** Retrieves all the results and adds up the size of the block they need; `depth` is that of the items. */
  method CollectEntries(h: Heap, item: Node, ghost t: Tree, depth: nat, fmt: bool, numentries: nat)
    returns (entries: array<array?<byte>>, len: nat)
    requires item == t.node && t.kind == KArray && Valid(t, true) && WellTyped(t) && numentries == |t.kids|
    modifies h
    ensures fresh(entries) && entries.Length == |t.kids| && len == 5 + EntriesLength(ItemsOf(t.kids), depth, fmt)
    ensures Stack(entries, 0, |t.kids|, ItemTexts(ItemsOf(t.kids), depth, fmt))
    ensures fresh(BlocksOf(entries, 0, |t.kids|))
    ensures h.live == old(h.live) + {entries} + BlocksOf(entries, 0, |t.kids|)
    decreases t, 2
  {
    hide Text, Walking, WellTyped, Valid, Objects, Stack, BlocksOf, ItemTexts, EntriesLength, ItemsOf;
    NothingToPrint(depth, fmt);
    WalkStart(t);
    HeapApart(h, t, true);
    assert allocated(Objects(t, true));
    ghost var items := ItemsOf(t.kids);
    entries := h.MallocPointers(numentries);
    var child, i := item.child, 0;
    len := 5;
    assert items[0..] == items;
    NoBlocks(entries, 0, ItemTexts(items, depth, fmt));
    ghost var blocks: set<object> := {};
    while child != null
      invariant Walking(child, i, t) && i <= |t.kids| && Stack(entries, 0, i, ItemTexts(items, depth, fmt))
      invariant BlocksOf(entries, 0, i) == blocks && fresh(blocks) && h.live == old(h.live) + {entries} + blocks
      invariant len + EntriesLength(items[i..], depth, fmt) == 5 + EntriesLength(items, depth, fmt)
      decreases |t.kids| - i
    {
      WalkStep(child, i, t);
      var size, next, ret := CollectEntry(h, child, i, t, depth, fmt, entries);
      blocks := blocks + {ret};
      len := len + size;
      child := next;
      i := i + 1;
    }
    WalkEnd(i, t);
    assert items[i..] == [];
  }

  lemma NothingToPrint(depth: nat, fmt: bool)
    ensures EntriesLength([], depth, fmt) == 0 && MembersLength([], depth, fmt) == 0
  {
  }

  lemma WalkEnd(i: nat, t: Tree)
    requires Walking(null, i, t)
    ensures i == |t.kids|
  {
    hide Valid, WellTyped;
  }

  method PrintArray(h: Heap, item: Node, depth: nat, fmt: bool, ghost t: Tree) returns (out: array<byte>)
    requires item == t.node && t.kind == KArray && Valid(t, true) && WellTyped(t)
    modifies h
    ensures fresh(out) && Holds(out, Text(ToJson(t), depth, fmt)) && h.live == old(h.live) + {out}
    decreases t, 3
  {
    hide Valid, WellTyped, Holds, Stack, BlocksOf, ItemTexts, ItemsText, EntriesLength, Objects;
    ArrayText(t, depth, fmt);
    Parts(t, true);
    HeapApart(h, t, true);
    assert allocated(Objects(t, true));
    var numentries := CountKids(item, t);
    if numentries == 0 {
      out := h.Malloc(3);
      Strcpy(out, 0, [OPEN_BRACKET, CLOSE_BRACKET]);
    } else {
      var entries, len := CollectEntries(h, item, t, depth + 1, fmt, numentries);
      BlocksApart(h, entries, 0, |t.kids|);
      assert allocated(BlocksOf(entries, 0, |t.kids|));
      out := h.Malloc(len);
      ComposeArray(h, entries, ItemsOf(t.kids), depth + 1, fmt, out);
    }
    ReadsHolds(out, Text(ToJson(t), depth, fmt));
  }

  lemma ArrayText(t: Tree, depth: nat, fmt: bool)
    requires t.kind == KArray && Valid(t, true) && WellTyped(t)
    ensures Text(ToJson(t), depth, fmt) == [OPEN_BRACKET] + ItemsText(ItemsOf(t.kids), depth + 1, fmt) + [CLOSE_BRACKET]
    ensures t.kids == [] ==> Text(ToJson(t), depth, fmt) == [OPEN_BRACKET, CLOSE_BRACKET]
    ensures NulFree(Text(ToJson(t), depth, fmt))
  {
    hide Valid, WellTyped;
    PrintableValue(t);
    TextNulFree(ToJson(t), depth, fmt);
  }

  lemma ReadsHolds(out: array<byte>, s: bytes)
    requires Reads(out, s) && NulFree(s)
    ensures Holds(out, s)
  {
  }

  /** The texts of the member at `child`. */
  method PrintMember(h: Heap, child: Node, i: nat, ghost t: Tree, depth: nat, fmt: bool)
    returns (str: array<byte>, ret: array<byte>)
    requires t.kind == KObject && Walking(child, i, t) && i < |t.kids|
    modifies h
    ensures fresh(str) && Holds(str, StringText(MembersOf(t.kids)[i].name))
    ensures fresh(ret) && Holds(ret, Text(MembersOf(t.kids)[i].value, depth, fmt)) && str != ret
    ensures h.live == old(h.live) + {str} + {ret}
    decreases t, 0
  {
    hide Text, StringText, Walking, WellTyped, Valid, Objects, Holds;
    WalkStep(child, i, t);
    HeapApart(h, t.kids[i], true);
    assert allocated(Objects(t.kids[i], true));
    HeadFields(t.kids[i], true);
    Parts(t.kids[i], true);
    str := PrintString(h, child.name, t.kids[i].name.chars);
    ret := PrintValue(h, child, depth, fmt, t.kids[i]);
  }

  /** Stores the name and the text of a member. */
  method PushBoth(str: array<byte>, ret: array<byte>, i: nat, ghost members: seq<Member>, ghost depth: nat,
                  ghost fmt: bool, names: array<array?<byte>>, entries: array<array?<byte>>)
    requires i < |members| && Stacks(names, entries, 0, i, members, depth, fmt)
    requires Holds(str, StringText(members[i].name)) && Holds(ret, Text(members[i].value, depth, fmt))
    requires str != ret && str !in Pile(names, entries, 0, i) && ret !in Pile(names, entries, 0, i)
    modifies names, entries
    ensures Stacks(names, entries, 0, i + 1, members, depth, fmt)
    ensures Pile(names, entries, 0, i + 1) == old(Pile(names, entries, 0, i)) + {str} + {ret}
  {
    hide Text, StringText, Holds, Stack, BlocksOf, NameTexts, ValueTexts;
    BlocksApart(names, names, 0, i);
    BlocksApart(names, entries, 0, i);
    assert allocated(BlocksOf(entries, 0, i));
    Push(names, i, str, NameTexts(members));
    BlocksApart(entries, names, 0, i + 1);
    assert allocated(BlocksOf(names, 0, i + 1));
    Push(entries, i, ret, ValueTexts(members, depth, fmt));
  }

  /** One turn of the collecting loop: the texts of the member, and what they add to `len`. */
  method CollectMember(h: Heap, child: Node, i: nat, ghost t: Tree, depth: nat, fmt: bool, names: array<array?<byte>>,
                       entries: array<array?<byte>>)
    returns (size: nat, next: Node?, str: array<byte>, ret: array<byte>)
    requires t.kind == KObject && Walking(child, i, t) && i < |t.kids|
    requires Stacks(names, entries, 0, i, MembersOf(t.kids), depth, fmt)
    modifies h, names, entries
    ensures Walking(next, i + 1, t) && Stacks(names, entries, 0, i + 1, MembersOf(t.kids), depth, fmt)
    ensures fresh(str) && fresh(ret)
    ensures Pile(names, entries, 0, i + 1) == old(Pile(names, entries, 0, i)) + {str} + {ret}
    ensures h.live == old(h.live) + {str} + {ret}
    ensures size + MembersLength(MembersOf(t.kids)[i + 1..], depth, fmt)
      == MembersLength(MembersOf(t.kids)[i..], depth, fmt)
    decreases t, 1
  {
    hide Text, StringText, Walking, WellTyped, Valid, Objects, Holds, Stacks, Pile;
    ghost var members := MembersOf(t.kids);
    assert members[i..][1..] == members[i + 1..];
    WalkStep(child, i, t);
    next := child.next;
    PileApart(h, names, entries, 0, i);
    HeapApart(h, t, true);
    Apart(names, t, true);
    Apart(entries, t, true);
    assert allocated(Pile(names, entries, 0, i)) && allocated(Objects(t, true));
    str, ret := PrintMember(h, child, i, t, depth, fmt);
    var retLength := Strlen(ret, Text(members[i].value, depth, fmt));
    var strLength := Strlen(str, StringText(members[i].name));
    size := retLength + strLength + 2 + if fmt then 2 + depth else 0;
    PushBoth(str, ret, i, members, depth, fmt, names, entries);
  }

  /** Collects all the results and the size of the block they need; `depth` is already that of the members. */
  method CollectMembers(h: Heap, item: Node, ghost t: Tree, depth: nat, fmt: bool, numentries: nat)
    returns (names: array<array?<byte>>, entries: array<array?<byte>>, len: nat)
    requires item == t.node && t.kind == KObject && Valid(t, true) && WellTyped(t) && numentries == |t.kids|
    modifies h
    ensures fresh(names) && fresh(entries) && Stacks(names, entries, 0, |t.kids|, MembersOf(t.kids), depth, fmt)
    ensures len == 7 + (if fmt then depth else 0) + MembersLength(MembersOf(t.kids), depth, fmt)
    ensures fresh(Pile(names, entries, 0, |t.kids|))
    ensures h.live == old(h.live) + {entries} + {names} + Pile(names, entries, 0, |t.kids|)
    decreases t, 2
  {
    hide Walking, WellTyped, Valid, Objects, Stacks, Pile, MembersLength, MembersOf;
    NothingToPrint(depth, fmt);
    WalkStart(t);
    HeapApart(h, t, true);
    assert allocated(Objects(t, true));
    ghost var members := MembersOf(t.kids);
    entries := h.MallocPointers(numentries);
    names := h.MallocPointers(numentries);
    var child, i := item.child, 0;
    len := 7 + if fmt then depth else 0;
    ghost var all := len + MembersLength(members, depth, fmt);
    assert members[0..] == members;
    NoStacks(names, entries, 0, members, depth, fmt);
    ghost var blocks: set<object> := {};
    while child != null
      invariant Walking(child, i, t) && i <= |t.kids| && Stacks(names, entries, 0, i, members, depth, fmt)
      invariant Pile(names, entries, 0, i) == blocks && fresh(blocks)
      invariant h.live == old(h.live) + {entries} + {names} + blocks
      invariant len + MembersLength(members[i..], depth, fmt) == all
      decreases |t.kids| - i
    {
      WalkStep(child, i, t);
      var size, next, str, ret := CollectMember(h, child, i, t, depth, fmt, names, entries);
      blocks := blocks + {str} + {ret};
      len := len + size;
      child := next;
      i := i + 1;
    }
    WalkEnd(i, t);
    assert members[i..] == [];
  }

  method PrintObject(h: Heap, item: Node, depth: nat, fmt: bool, ghost t: Tree) returns (out: array<byte>)
    requires item == t.node && t.kind == KObject && Valid(t, true) && WellTyped(t)
    modifies h
    ensures fresh(out) && Holds(out, Text(ToJson(t), depth, fmt)) && h.live == old(h.live) + {out}
    decreases t, 4
  {
    hide Valid, WellTyped, Holds, Stacks, Pile, MembersText, MembersLength, Objects, Tabs;
    ObjectText(t, depth, fmt);
    Parts(t, true);
    HeapApart(h, t, true);
    assert allocated(Objects(t, true));
    var numentries := CountKids(item, t);
    if numentries == 0 {
      out := h.Malloc(if fmt then depth + 4 else 3);
      PutEmptyObject(depth, fmt, out, 0);
      assert out[..0] == [];
    } else {
      out := PrintFilled(h, item, depth, fmt, numentries, t);
    }
    ReadsHolds(out, Text(ToJson(t), depth, fmt));
  }

  /** An object with members: names and values in blocks of their own, then both composed. */
  method PrintFilled(h: Heap, item: Node, depth: nat, fmt: bool, numentries: nat, ghost t: Tree)
    returns (out: array<byte>)
    requires item == t.node && t.kind == KObject && Valid(t, true) && WellTyped(t) && numentries == |t.kids| > 0
    modifies h
    ensures fresh(out) && Reads(out, Text(ToJson(t), depth, fmt)) && h.live == old(h.live) + {out}
    decreases t, 3
  {
    hide Valid, WellTyped, Holds, Stacks, Pile, Text, MembersText, MembersLength, Objects, Tabs;
    ObjectText(t, depth, fmt);
    var names, entries, len := CollectMembers(h, item, t, depth + 1, fmt, numentries);
    PileApart(h, names, entries, 0, |t.kids|);
    assert allocated(Pile(names, entries, 0, |t.kids|));
    out := h.Malloc(len);
    ComposeObject(h, names, entries, MembersOf(t.kids), depth + 1, fmt, out);
  }

  function EmptyObjectText(depth: nat, fmt: bool): bytes {
    [OPEN_BRACE] + (if fmt then [NEWLINE] + Tabs(depth - 1) else []) + [CLOSE_BRACE]
  }

  method PutByte(c: byte, out: array<byte>, at: nat)
    requires at < out.Length
    modifies out
    ensures out[..at + 1] == old(out[..at]) + [c]
  {
    out[at] := c;
  }

  /** The empty object case, one tab short of its depth. */
  method PutEmptyObject(depth: nat, fmt: bool, out: array<byte>, at: nat)
    requires at + (if fmt then depth + 4 else 3) <= out.Length
    modifies out
    ensures Reads(out, old(out[..at]) + EmptyObjectText(depth, fmt))
  {
    hide Tabs;
    ghost var before := out[..at];
    PutByte(OPEN_BRACE, out, at);
    var ptr := at + 1;
    ghost var tabs := [];
    if fmt {
      PutByte(NEWLINE, out, ptr);
      ptr := PutTabs(depth - 1, out, ptr + 1);
      tabs := [NEWLINE] + Tabs(depth - 1);
      Assoc(before + [OPEN_BRACE], [NEWLINE], Tabs(depth - 1));
    } else {
      assert before + [OPEN_BRACE] + [] == before + [OPEN_BRACE];
    }
    PutByte(CLOSE_BRACE, out, ptr);
    out[ptr + 1] := 0;
    Assoc(before, [OPEN_BRACE], tabs);
    Assoc(before, [OPEN_BRACE] + tabs, [CLOSE_BRACE]);
  }

  lemma ObjectText(t: Tree, depth: nat, fmt: bool)
    requires t.kind == KObject && Valid(t, true) && WellTyped(t)
    ensures Text(ToJson(t), depth, fmt) ==
      if t.kids == [] then EmptyObjectText(depth, fmt)
      else
        [OPEN_BRACE] + (if fmt then [NEWLINE] else []) + MembersText(MembersOf(t.kids), depth + 1, fmt)
        + (if fmt then Tabs(depth) else []) + [CLOSE_BRACE]
    ensures NulFree(Text(ToJson(t), depth, fmt))
  {
    hide Valid, WellTyped;
    PrintableValue(t);
    TextNulFree(ToJson(t), depth, fmt);
  }

  method PrintValue(h: Heap, item: Node, depth: nat, fmt: bool, ghost t: Tree) returns (out: array<byte>)
    requires item == t.node && Valid(t, true) && WellTyped(t)
    modifies h
    ensures fresh(out) && Holds(out, Text(ToJson(t), depth, fmt)) && h.live == old(h.live) + {out}
    decreases t, 5
  {
    hide Valid, WellTyped, Holds, ItemsText, MembersText, StringText, IntText, Objects;
    HeadFields(t, true);
    LeafTypes(t);
    HeapApart(h, t, true);
    Parts(t, true);
    match item.kind {
      case KNull => out := PrintWord(h, NULL_WORD);
      case KFalse => out := PrintWord(h, FALSE_WORD);
      case KTrue => out := PrintWord(h, TRUE_WORD);
      case KNumber => out := PrintNumber(h, item);
      case KString => out := PrintString(h, item.valueString, t.str.chars);
      case KArray => out := PrintArray(h, item, depth, fmt, t);
      case KObject => out := PrintObject(h, item, depth, fmt, t);
    }
  }

  lemma LeafTypes(t: Tree)
    requires WellTyped(t)
    ensures t.kind == KNumber ==> IsInt32(t.value) && t.valueInt == t.value.Floor
    ensures t.kind == KString ==> t.str.CString?
  {
  }

  /** cJSON_Print (`fmt`) and cJSON_PrintUnformatted: of all that is allocated only the text stays. */
  method Print(h: Heap, item: Node?, fmt: bool, ghost t: Tree) returns (out: array?<byte>)
    requires item != null ==> item == t.node && Valid(t, true) && WellTyped(t)
    modifies h
    ensures out == null <==> item == null
    ensures out == null ==> h.live == old(h.live)
    ensures out != null ==> fresh(out) && Holds(out, Text(ToJson(t), 0, fmt)) && h.live == old(h.live) + {out}
  {
    hide Valid, WellTyped, Holds, Text;
    if item == null {
      return null;
    }
    out := PrintValue(h, item, 0, fmt, t);
  }
}
