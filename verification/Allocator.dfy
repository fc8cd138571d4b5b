/** malloc and free, with a ledger of what is allocated. */
module Allocator {
  import opened Bytes
  import opened Nodes

  /** The allocator: which blocks are allocated. Only these may be freed, and freeing scrambles them. */
  class Heap {
    ghost var live: set<object>

    constructor ()
      ensures live == {}
    {
      live := {};
    }

    /** cJSON_New_Item */
    method NewItem() returns (n: Node)
      modifies this
      ensures fresh(n) && live == old(live) + {n}
      ensures n.next == null && n.prev == null && n.child == null && n.kind == KFalse && !n.isReference
      ensures n.valueString == null && n.valueInt == 0 && n.valueDouble == 0.0 && n.name == null
    {
      n := new Node();
      live := live + {n};
    }

    method Malloc(size: nat) returns (a: array<byte>)
      modifies this
      ensures fresh(a) && a.Length == size && live == old(live) + {a}
    {
      a := new byte[size];
      live := live + {a};
    }

    /** An array of pointers, zeroed by memset. */
    method MallocPointers(n: nat) returns (a: array<array?<byte>>)
      modifies this
      ensures fresh(a) && a.Length == n && live == old(live) + {a}
      ensures forall i :: 0 <= i < n ==> a[i] == null
    {
      a := new array?<byte>[n](_ => null);
      live := live + {a};
    }

    method FreePointers(a: array<array?<byte>>)
      requires a in live
      modifies this, a
      ensures live == old(live) - {a}
    {
      modify a;
      live := live - {a};
    }

    method FreeNode(n: Node)
      requires n in live
      modifies this, n
      ensures live == old(live) - {n}
    {
      modify n;
      live := live - {n};
    }

    method FreeText(a: array<byte>)
      requires a in live
      modifies this, a
      ensures live == old(live) - {a}
    {
      modify a;
      live := live - {a};
    }
  }

  /** Trees consist of nodes and text buffers only. */
  lemma {:induction false} Apart(x: object, t: Tree, deep: bool)
    requires !(x is Node) && !(x is array<byte>)
    ensures x !in Objects(t, deep)
    decreases t, 0
  {
    ApartAll(x, t.kids, deep);
  }

  lemma {:induction false} ApartAll(x: object, ts: seq<Tree>, deep: bool)
    requires !(x is Node) && !(x is array<byte>)
    ensures x !in ObjectsOf(ts, deep)
    decreases ts, 1
  {
    forall i | 0 <= i < |ts|
      ensures x !in Objects(ts[i], deep)
    {
      Apart(x, ts[i], deep);
    }
  }

  lemma HeapApart(h: Heap, t: Tree, deep: bool)
    ensures h !in Objects(t, deep)
  {
    Apart(h, t, deep);
  }

  lemma HeapApartAll(h: Heap, ts: seq<Tree>, deep: bool)
    ensures h !in ObjectsOf(ts, deep)
  {
    ApartAll(h, ts, deep);
  }
}
