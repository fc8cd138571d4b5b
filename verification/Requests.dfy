/** How far the buffered printer asks its buffer to reach, in front of each write. */
module Requests {
  import opened Bytes
  import opened Json
  import opened PrintText
  import opened Rendering

  function Max(a: nat, b: nat): nat {
    if a < b then b else a
  }

  /** The furthest byte that is asked for while a value is printed from offset zero. */
  function Peak(v: Json, depth: nat, fmt: bool): (n: nat)
    ensures n >= 2
    decreases v, 1
  {
    match v
    case Null => 5
    case False => 6
    case True => 5
    case Number(d) => if d == 0.0 then 2 else 21
    case String(s) => |StringText(s)| + 1
    case Array(items) => if items == [] then 3 else Max(1 + ItemsPeak(items, depth + 1, fmt), |Text(v, depth, fmt)| + 1)
    case Object(members) =>
      if members == [] then (if fmt then depth + 4 else 3)
      else Max((if fmt then 2 else 1) + MembersPeak(members, depth + 1, fmt), |Text(v, depth, fmt)| + 1)
  }

  /** The same for array elements from some position on: each, its separator, and the others. */
  function ItemsPeak(items: seq<Json>, depth: nat, fmt: bool): (n: nat)
    ensures items != [] ==> n >= 2
    decreases items, 0
  {
    if items == [] then 0
    else
      var m := |Text(items[0], depth, fmt)| + |ItemSeparator(|items| > 1, fmt)|;
      Max(Peak(items[0], depth, fmt), m + ItemsPeak(items[1..], depth, fmt))
  }

  /** The same for object members: name, value and separator, which is asked for with a terminator, and the others. */
  function MembersPeak(members: seq<Member>, depth: nat, fmt: bool): (n: nat)
    ensures members != [] ==> n >= 2
    decreases members, 0
  {
    if members == [] then 0
    else
      var name := |NameText(members[0].name, depth, fmt)|;
      var m := name + |Text(members[0].value, depth, fmt)| + |MemberSeparator(|members| > 1, fmt)|;
      Max(name + Peak(members[0].value, depth, fmt), m + Max(1, MembersPeak(members[1..], depth, fmt)))
  }

  lemma FirstItemPeak(items: seq<Json>, i: nat, depth: nat, fmt: bool)
    requires i < |items|
    ensures
      var m := |Text(items[i], depth, fmt)| + |ItemSeparator(i + 1 < |items|, fmt)|;
      && ItemsPeak(items[i..], depth, fmt) >= Peak(items[i], depth, fmt)
      && ItemsPeak(items[i..], depth, fmt) >= m + ItemsPeak(items[i + 1..], depth, fmt)
      && (i + 1 < |items| ==> ItemsPeak(items[i + 1..], depth, fmt) >= 2)
  {
    hide Text, ItemSeparator, Peak;
    assert items[i..][1..] == items[i + 1..];
  }

  lemma FirstMemberPeak(members: seq<Member>, i: nat, depth: nat, fmt: bool)
    requires i < |members|
    ensures
      var name := |NameText(members[i].name, depth, fmt)|;
      var m := name + |Text(members[i].value, depth, fmt)| + |MemberSeparator(i + 1 < |members|, fmt)|;
      && MembersPeak(members[i..], depth, fmt) >= name + Peak(members[i].value, depth, fmt)
      && MembersPeak(members[i..], depth, fmt) >= m + 1
      && MembersPeak(members[i..], depth, fmt) >= m + MembersPeak(members[i + 1..], depth, fmt)
  {
    hide Text, NameText, MemberSeparator, Peak;
    assert members[i..][1..] == members[i + 1..];
  }

  // The furthest byte lies at least one and at most twenty bytes behind the text

  lemma {:induction false} PeakBounds(v: Json, depth: nat, fmt: bool)
    requires Printable(v)
    ensures |Text(v, depth, fmt)| < Peak(v, depth, fmt) <= |Text(v, depth, fmt)| + 20
    decreases v, 1
  {
    hide IntText, Tabs;
    match v
    case Number(d) => NumberPeak(d);
    case Array(items) => ArrayPeak(items, depth, fmt);
    case Object(members) => ObjectPeak(members, depth, fmt);
    case _ =>
  }

  lemma NumberPeak(d: real)
    requires IsInt32(d)
    ensures |IntText(d.Floor)| < (if d == 0.0 then 2 else 21) <= |IntText(d.Floor)| + 20
  {
    hide Digits;
    IntFits(d.Floor);
    IntLength(d.Floor);
    if d == 0.0 {
      ZeroText();
    }
  }

  lemma {:induction false} ArrayPeak(items: seq<Json>, depth: nat, fmt: bool)
    requires forall x :: x in items ==> Printable(x)
    ensures var v := Array(items); |Text(v, depth, fmt)| < Peak(v, depth, fmt) <= |Text(v, depth, fmt)| + 20
    decreases items, 1
  {
    hide ItemsText, ItemsPeak;
    if items == [] {
      NoItems(depth + 1, fmt);
    } else {
      ItemsPeakBound(items, depth + 1, fmt);
    }
  }

  lemma {:induction false} ObjectPeak(members: seq<Member>, depth: nat, fmt: bool)
    requires forall m :: m in members ==> NulFree(m.name) && Printable(m.value)
    ensures var v := Object(members); |Text(v, depth, fmt)| < Peak(v, depth, fmt) <= |Text(v, depth, fmt)| + 20
    decreases members, 1
  {
    hide MembersText, MembersPeak;
    if members != [] {
      MembersPeakBound(members, depth + 1, fmt);
    }
  }

  lemma IntLength(n: int)
    ensures |IntText(n)| >= 1
  {
  }

  lemma ZeroText()
    ensures IntText(0) == [48]
  {
  }

  lemma NoItems(depth: nat, fmt: bool)
    ensures ItemsText([], depth, fmt) == []
  {
  }

  lemma {:induction false} ItemsPeakBound(items: seq<Json>, depth: nat, fmt: bool)
    requires items != [] && forall x :: x in items ==> Printable(x)
    ensures ItemsPeak(items, depth, fmt) <= |ItemsText(items, depth, fmt)| + 20
    decreases items, 0
  {
    hide Text, Peak, Printable;
    PeakBounds(items[0], depth, fmt);
    if |items| > 1 {
      ItemsPeakBound(items[1..], depth, fmt);
    }
  }

  lemma {:induction false} MembersPeakBound(members: seq<Member>, depth: nat, fmt: bool)
    requires members != [] && forall m :: m in members ==> NulFree(m.name) && Printable(m.value)
    ensures MembersPeak(members, depth, fmt) <= |MembersText(members, depth, fmt)| + 20
    decreases members, 0
  {
    hide Text, Peak, Printable, NameText;
    PeakBounds(members[0].value, depth, fmt);
    if |members| > 1 {
      MembersPeakBound(members[1..], depth, fmt);
    }
  }

  // Exactly one byte behind it, unless a number or a nested empty object asks for more

  /** No number but zero, and in formatted text no empty object inside another value. */
  predicate Snug(v: Json, depth: nat, fmt: bool)
    decreases v
  {
    match v
    case Number(d) => d == 0.0
    case Array(items) => forall i :: 0 <= i < |items| ==> Snug(items[i], depth + 1, fmt)
    case Object(members) =>
      && (fmt && members == [] ==> depth == 0)
      && forall i :: 0 <= i < |members| ==> Snug(members[i].value, depth + 1, fmt)
    case _ => true
  }

  /** Such a value never asks for more than its text and the terminator; any other number asks for 21 bytes. */
  lemma {:induction false} PeakExact(v: Json, depth: nat, fmt: bool)
    requires Snug(v, depth, fmt)
    ensures Peak(v, depth, fmt) == |Text(v, depth, fmt)| + 1
    ensures forall d: real :: d != 0.0 ==> Peak(Number(d), depth, fmt) == 21
    decreases v, 1
  {
    hide IntText;
    match v
    case Number(d) => ZeroText();
    case Array(items) =>
      if items == [] {
        NoItems(depth + 1, fmt);
      } else {
        ItemsPeakExact(items, depth + 1, fmt);
      }
    case Object(members) => if members != [] { ObjectPeakExact(members, depth, fmt); }
    case _ =>
  }

  lemma {:induction false} ObjectPeakExact(members: seq<Member>, depth: nat, fmt: bool)
    requires members != [] && forall i :: 0 <= i < |members| ==> Snug(members[i].value, depth + 1, fmt)
    ensures Peak(Object(members), depth, fmt) == |Text(Object(members), depth, fmt)| + 1
    decreases members, 1
  {
    hide MembersText, MembersPeak, Snug;
    MembersPeakExact(members, depth + 1, fmt);
  }

  lemma {:induction false} ItemsPeakExact(items: seq<Json>, depth: nat, fmt: bool)
    requires items != [] && forall i :: 0 <= i < |items| ==> Snug(items[i], depth, fmt)
    ensures ItemsPeak(items, depth, fmt) <= |ItemsText(items, depth, fmt)| + 1
    decreases items, 0
  {
    hide Text, Peak, Snug;
    PeakExact(items[0], depth, fmt);
    if |items| > 1 {
      ItemsPeakExact(items[1..], depth, fmt);
    }
  }

  lemma {:induction false} MembersPeakExact(members: seq<Member>, depth: nat, fmt: bool)
    requires members != [] && forall i :: 0 <= i < |members| ==> Snug(members[i].value, depth, fmt)
    ensures MembersPeak(members, depth, fmt) <= |MembersText(members, depth, fmt)| + 1
    decreases members, 0
  {
    hide Text, Peak, Snug, NameText;
    PeakExact(members[0].value, depth, fmt);
    if |members| > 1 {
      MembersPeakExact(members[1..], depth, fmt);
    }
  }
}
