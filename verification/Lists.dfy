/** Sibling lists of trees: how they grow and how their validity survives a change of links. */
module Lists {
  import opened Nodes

  /** `n` is not among the objects whose fields the validity of `t` depends on, its root apart. */
  ghost predicate Away(n: Node, t: Tree, deep: bool) {
    n !in Buffers(t.name) && (!Borrows(t, deep) ==> n !in Buffers(t.str) + ObjectsOf(t.kids, deep))
  }

  lemma OutsideIsAway(n: Node, t: Tree, deep: bool)
    requires n !in Objects(t, deep)
    ensures Away(n, t, deep) && n != t.node
  {
  }

  lemma RootIsAway(t: Tree, deep: bool)
    requires Separate(t, deep)
    ensures Away(t.node, t, deep)
  {
    hide Objects, ObjectsOf;
  }

  lemma SeparateItem(ts: seq<Tree>, i: nat, deep: bool)
    requires SeparateAll(ts, deep) && i < |ts|
    ensures Separate(ts[i], deep)
  {
    hide Objects, Separate;
  }

  lemma SeparatePair(ts: seq<Tree>, i: nat, j: nat, deep: bool)
    requires SeparateAll(ts, deep) && i < j < |ts|
    ensures Objects(ts[i], deep) !! Objects(ts[j], deep)
  {
    hide Objects, Separate;
  }

  lemma NodesAppend(ts: seq<Tree>, t: Tree)
    ensures NodesOf(ts + [t]) == NodesOf(ts) + [t.node]
  {
    var all := ts + [t];
    assert forall i :: 0 <= i < |ts| ==> all[i] == ts[i];
  }

  lemma ObjectsAppend(ts: seq<Tree>, t: Tree, deep: bool)
    ensures ObjectsOf(ts + [t], deep) == ObjectsOf(ts, deep) + Objects(t, deep)
  {
    var all := ts + [t];
    forall o | o in ObjectsOf(ts, deep)
      ensures o in ObjectsOf(all, deep)
    {
      var i :| 0 <= i < |ts| && o in Objects(ts[i], deep);
      assert o in Objects(all[i], deep);
    }
    assert all[|ts|] == t;
  }

  /** No node stands in a list twice. */
  ghost predicate Distinct(ns: seq<Node>) {
    forall i, j :: 0 <= i < j < |ns| ==> ns[i] != ns[j]
  }

  /** suffix_object: links a single item after the last of a list. */
  method SuffixObject(prev: Node, item: Node, ghost ns: seq<Node>)
    requires ns != [] && prev == ns[|ns| - 1] && Linked(ns) && Distinct(ns) && item !in ns
    modifies prev`next, item`prev
    ensures item.next == null ==> Linked(ns + [item])
  {
    prev.next := item;
    item.prev := prev;
    ghost var all := ns + [item];
    assert forall i :: 0 <= i < |ns| ==> all[i] == ns[i];
    assert all[|ns|] == item;
  }

  lemma DistinctNodes(ts: seq<Tree>, deep: bool)
    requires SeparateAll(ts, deep)
    ensures Distinct(NodesOf(ts))
  {
    forall i, j | 0 <= i < j < |ts|
      ensures ts[i].node != ts[j].node
    {
      SeparatePair(ts, i, j, deep);
      Parts(ts[i], deep);
      Parts(ts[j], deep);
    }
  }

  lemma ValidItems(ts: seq<Tree>, deep: bool)
    requires IsList(ts, deep)
    ensures Linked(NodesOf(ts)) && forall i :: 0 <= i < |ts| ==> Valid(ts[i], deep)
  {
    hide Valid;
    assert ValidAll(ts, deep);
  }

  /** The same on trees: a single tree joins a list of valid ones. */
  method SuffixTree(prev: Node, item: Node, ghost ts: seq<Tree>, ghost t: Tree, ghost deep: bool)
    requires ts != [] && prev == ts[|ts| - 1].node && item == t.node
    requires IsList(ts, deep) && Valid(t, deep) && item.next == null && item.prev == null
    requires SeparateAll(ts, deep) && Objects(t, deep) !! ObjectsOf(ts, deep)
    requires Separate(t, deep)
    modifies prev`next, item`prev
    ensures IsList(ts + [t], deep)
  {
    hide Valid, ValidAll, Objects, ObjectsOf, Separate, SeparateAll, IsList, NodesOf;
    DistinctNodes(ts, deep);
    NodesAppend(ts, t);
    ListParts(ts, deep);
    Untouched(ts, t, deep);
    ghost var init, last := ts[..|ts| - 1], ts[|ts| - 1];
    prev.next := item;
    item.prev := prev;
    assert ValidAll(init, deep) && Valid(last, deep) && Valid(t, deep);
    assert Linked(NodesOf(ts + [t]));
    JoinList(ts, t, deep);
  }

  lemma ListParts(ts: seq<Tree>, deep: bool)
    requires ts != [] && IsList(ts, deep)
    ensures Linked(NodesOf(ts)) && ValidAll(ts[..|ts| - 1], deep) && Valid(ts[|ts| - 1], deep)
  {
    hide Valid;
    assert ValidAll(ts, deep);
  }

  lemma JoinList(ts: seq<Tree>, t: Tree, deep: bool)
    requires ts != [] && ValidAll(ts[..|ts| - 1], deep) && Valid(ts[|ts| - 1], deep) && Valid(t, deep)
    requires Linked(NodesOf(ts + [t]))
    ensures IsList(ts + [t], deep)
  {
    hide Valid, Linked;
    var all, init := ts + [t], ts[..|ts| - 1];
    assert forall i :: 0 <= i < |all| ==> all[i] == if i < |init| then init[i] else if i < |ts| then ts[i] else t;
  }

  /** Linking `t` after the last of `ts` writes nothing that the validity of these trees depends on. */
  lemma Untouched(ts: seq<Tree>, t: Tree, deep: bool)
    requires ts != [] && SeparateAll(ts, deep) && Objects(t, deep) !! ObjectsOf(ts, deep)
    requires Separate(t, deep)
    ensures var last := ts[|ts| - 1];
      && t.node !in ObjectsOf(ts[..|ts| - 1], deep) && last.node !in ObjectsOf(ts[..|ts| - 1], deep)
      && Away(t.node, last, deep) && Away(last.node, last, deep) && Away(last.node, t, deep) && Away(t.node, t, deep)
      && t.node !in NodesOf(ts)
  {
    hide Objects, ObjectsOf, Away, Separate, SeparateAll;
    var init, last := ts[..|ts| - 1], ts[|ts| - 1];
    assert init + [last] == ts;
    ObjectsAppend(init, last, deep);
    ListNodes(ts, deep);
    SeparateItem(ts, |ts| - 1, deep);
    Parts(t, deep);
    Parts(last, deep);
    RootIsAway(t, deep);
    RootIsAway(last, deep);
    OutsideIsAway(last.node, t, deep);
    OutsideIsAway(t.node, last, deep);
    LastApart(ts, deep);
  }

  lemma LastApart(ts: seq<Tree>, deep: bool)
    requires ts != [] && SeparateAll(ts, deep)
    ensures ts[|ts| - 1].node !in ObjectsOf(ts[..|ts| - 1], deep)
  {
    var init, last := ts[..|ts| - 1], ts[|ts| - 1];
    Parts(last, deep);
    forall i | 0 <= i < |init|
      ensures last.node !in Objects(init[i], deep)
    {
      SeparatePair(ts, i, |ts| - 1, deep);
    }
  }

  lemma SeparateAppend(ts: seq<Tree>, t: Tree, deep: bool)
    requires SeparateAll(ts, deep) && Separate(t, deep) && Objects(t, deep) !! ObjectsOf(ts, deep)
    ensures SeparateAll(ts + [t], deep)
  {
    hide Objects, Separate;
    var all := ts + [t];
    forall i, j | 0 <= i < j < |all|
      ensures Objects(all[i], deep) !! Objects(all[j], deep)
    {
      Within(ts, i, deep);
      if j < |ts| {
        SeparatePair(ts, i, j, deep);
      }
    }
  }

  lemma SingleList(t: Tree, deep: bool)
    requires Valid(t, deep) && Separate(t, deep) && t.node.next == null && t.node.prev == null
    ensures IsList([t], deep) && SeparateAll([t], deep) && ObjectsOf([t], deep) == Objects(t, deep)
  {
    hide Valid, Separate;
    NodesAppend([], t);
    ObjectsAppend([], t, deep);
    assert [] + [t] == [t];
  }

  function Last(ts: seq<Tree>): Node? {
    if ts == [] then null else ts[|ts| - 1].node
  }

  /** A parent that is collecting children: `last` is where the next one is linked. */
  ghost predicate Collecting(parent: Node, last: Node?, ts: seq<Tree>, deep: bool)
    reads parent`child, ObjectsOf(ts, deep)
  {
    && IsList(ts, deep) && SeparateAll(ts, deep) && parent !in ObjectsOf(ts, deep)
    && parent.child == First(ts) && last == Last(ts)
  }

  lemma CollectingNothing(parent: Node, deep: bool)
    requires parent.child == null
    ensures Collecting(parent, null, [], deep) && ObjectsOf([], deep) == {}
  {
  }

  /** Adds a single item at the end of the children that a parent is collecting. */
  method AppendKid(parent: Node, last: Node?, kid: Node, ghost ts: seq<Tree>, ghost t: Tree, ghost deep: bool)
    requires Collecting(parent, last, ts, deep) && parent !in Objects(t, deep)
    requires kid == t.node && Valid(t, deep) && Separate(t, deep) && kid.next == null && kid.prev == null
    requires Objects(t, deep) !! ObjectsOf(ts, deep)
    modifies parent`child, ObjectsOf(ts, deep), kid`prev
    ensures Collecting(parent, kid, ts + [t], deep) && kid.next == null
    ensures ObjectsOf(ts + [t], deep) == ObjectsOf(ts, deep) + Objects(t, deep)
  {
    hide Valid, Separate, SeparateAll, Objects, ObjectsOf, IsList;
    ObjectsAppend(ts, t, deep);
    SeparateAppend(ts, t, deep);
    if last == null {
      assert ts + [t] == [t];
      SingleList(t, deep);
      parent.child := kid;
    } else {
      LastWithin(ts, deep);
      Parts(t, deep);
      SuffixTree(last, kid, ts, t, deep);
    }
  }

  lemma LastWithin(ts: seq<Tree>, deep: bool)
    requires ts != []
    ensures ts[|ts| - 1].node in ObjectsOf(ts, deep)
  {
    Within(ts, |ts| - 1, deep);
  }

  /** Following the children of a valid tree. */
  lemma KidAt(t: Tree, i: nat)
    requires Valid(t, true) && i < |t.kids|
    ensures Valid(t.kids[i], true) && t.kids[i].node.next == First(t.kids[i + 1..])
    ensures t.kids[i].node in Objects(t, true) && Objects(t.kids[i], true) <= Objects(t, true)
  {
    hide ValidHead;
    Within(t.kids, i, true);
    assert IsList(t.kids, true);
    assert ValidAll(t.kids, true);
    var ns := NodesOf(t.kids);
    assert ns[i].next == if i + 1 < |ns| then ns[i + 1] else null;
  }
}
