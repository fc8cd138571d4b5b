/** cJSON_Delete frees exactly what a list of trees owns. */
module Deletion {
  import opened Nodes
  import opened Allocator

  /** What `next` pointers reach from the first of the trees, whatever `prev` says. */
  ghost predicate Chained(ts: seq<Tree>)
    reads ObjectsOf(ts, false)
  {
    forall i {:trigger ts[i].node.next} :: 0 <= i < |ts| ==>
      (Within(ts, i, false); ts[i].node.next) == if i + 1 < |ts| then ts[i + 1].node else null
  }

  lemma LinkedIsChained(ts: seq<Tree>)
    requires Linked(NodesOf(ts))
    ensures Chained(ts)
  {
    var ns := NodesOf(ts);
    assert forall i :: 0 <= i < |ts| ==> ns[i].next == ts[i].node.next;
  }

  lemma UnconsChained(ts: seq<Tree>)
    requires ts != [] && Chained(ts)
    ensures Chained(ts[1..]) && ts[0].node.next == First(ts[1..])
  {
    var rest := ts[1..];
    assert forall i :: 0 <= i < |rest| ==> rest[i].node.next == ts[i + 1].node.next;
  }

  /** Follows `next`: the siblings from `c` on, with everything they own. Borrowed items are left alone. */
  method Delete(h: Heap, c: Node?, ghost ts: seq<Tree>)
    requires c == First(ts) && Chained(ts) && ValidAll(ts, false)
    requires SeparateAll(ts, false) && ObjectsOf(ts, false) <= h.live
    modifies h, ObjectsOf(ts, false)
    ensures h.live == old(h.live) - ObjectsOf(ts, false)
    decreases ts, 1
  {
    hide Valid, ValidAll, Objects, ObjectsOf, Separate, SeparateAll, Chained;
    NothingOf(false);
    var c := c;
    ghost var rest := ts;
    ghost var freed: set<object> := {};
    while c != null
      invariant c == First(rest) && Chained(rest) && ValidAll(rest, false) && SeparateAll(rest, false)
      invariant ObjectsOf(rest, false) <= h.live && freed + ObjectsOf(rest, false) == ObjectsOf(ts, false)
      invariant h.live == old(h.live) - freed
      invariant |rest| <= |ts| && rest == ts[|ts| - |rest|..]
      decreases |rest|
    {
      Uncons(rest, false);
      UnconsValid(rest, false);
      UnconsChained(rest);
      HeapApartAll(h, rest[1..], false);
      var next := c.next;
      DeleteItem(h, c, rest[0]);
      c := next;
      freed := freed + Objects(rest[0], false);
      rest := rest[1..];
    }
  }

  /** One turn of the loop: the node, what it owns, and the list below it. */
  method DeleteItem(h: Heap, c: Node, ghost t: Tree)
    requires c == t.node && Valid(t, false) && Separate(t, false) && Objects(t, false) <= h.live
    modifies h, Objects(t, false)
    ensures h.live == old(h.live) - Objects(t, false)
    decreases t, 0
  {
    if !c.isReference && c.child != null {
      LinkedIsChained(t.kids);
      Delete(h, c.child, t.kids);
    }
    if !c.isReference && c.valueString != null {
      h.FreeText(c.valueString);
    }
    if c.name != null {
      h.FreeText(c.name);
    }
    h.FreeNode(c);
  }
}
