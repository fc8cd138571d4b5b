/** Which trees have a printable value, and why their text is a C string. */
module TreeText {
  import opened Bytes
  import opened Json
  import opened PrintText
  import opened Nodes

  /** Strings and names are present where the printers follow them; numbers are ints in both fields. */
  ghost predicate WellTyped(t: Tree)
    decreases t
  {
    match t.kind
    case KNumber => IsInt32(t.value) && t.valueInt == t.value.Floor
    case KString => t.str.CString?
    case KArray => forall i :: 0 <= i < |t.kids| ==> WellTyped(t.kids[i])
    case KObject => forall i :: 0 <= i < |t.kids| ==> t.kids[i].name.CString? && WellTyped(t.kids[i])
    case _ => true
  }

  lemma {:induction false} PrintableValue(t: Tree)
    requires Valid(t, true) && WellTyped(t)
    ensures Printable(ToJson(t))
    decreases t
  {
    if t.kind == KArray || t.kind == KObject {
      PrintableKids(t.kids);
      assert forall x :: x in ItemsOf(t.kids) ==> Printable(x);
    }
  }

  lemma {:induction false} PrintableKids(ts: seq<Tree>)
    requires IsList(ts, true) && forall i :: 0 <= i < |ts| ==> WellTyped(ts[i])
    ensures forall i :: 0 <= i < |ts| ==> Printable(ToJson(ts[i])) && NulFree(CharsOf(ts[i].name))
    decreases ts
  {
    assert ValidAll(ts, true);
    forall i | 0 <= i < |ts|
      ensures Printable(ToJson(ts[i])) && NulFree(CharsOf(ts[i].name))
    {
      assert Valid(ts[i], true);
      PrintableValue(ts[i]);
    }
  }

  lemma NulFreeConcat(a: bytes, b: bytes)
    requires NulFree(a) && NulFree(b)
    ensures NulFree(a + b)
  {
  }

  lemma {:induction false} EscapeNulFree(s: bytes)
    requires NulFree(s)
    ensures NulFree(Escape(s)) && NulFree(StringText(s))
  {
    if s != [] {
      EscapeNulFree(s[1..]);
      NulFreeConcat(EscapeByte(s[0]), Escape(s[1..]));
    }
  }

  lemma IntegerNulFree(n: int)
    ensures NulFree(IntText(n))
  {
  }

  /** No text contains a terminator, so `strlen` measures the whole of it. */
  lemma {:induction false} TextNulFree(v: Json, depth: nat, fmt: bool)
    requires Printable(v)
    ensures NulFree(Text(v, depth, fmt))
    decreases v, 1
  {
    hide ItemsText, MembersText, StringText, IntText, Tabs;
    match v
    case Number(d) => IntegerNulFree(d.Floor);
    case String(s) => EscapeNulFree(s);
    case Array(items) => ItemsNulFree(items, depth + 1, fmt);
    case Object(members) => MembersNulFree(members, depth + 1, fmt);
    case _ =>
  }

  lemma {:induction false} ItemsNulFree(items: seq<Json>, depth: nat, fmt: bool)
    requires forall x :: x in items ==> Printable(x)
    ensures NulFree(ItemsText(items, depth, fmt))
    decreases items, 0
  {
    if items != [] {
      TextNulFree(items[0], depth, fmt);
      ItemsNulFree(items[1..], depth, fmt);
    }
  }

  lemma {:induction false} MembersNulFree(members: seq<Member>, depth: nat, fmt: bool)
    requires forall m :: m in members ==> NulFree(m.name) && Printable(m.value)
    ensures NulFree(MembersText(members, depth, fmt))
    decreases members, 0
  {
    hide Text, StringText, Tabs;
    if members != [] {
      TextNulFree(members[0].value, depth, fmt);
      EscapeNulFree(members[0].name);
      MembersNulFree(members[1..], depth, fmt);
    }
  }
}
