/** The pointer arrays of the unbuffered printer: each entry is a block of its own that holds a text. */
module Blocks {
  import opened Bytes
  import opened Nodes
  import opened Allocator

  /** Entries `i` to `n` hold their texts, in blocks that are all different. */
  ghost predicate Stack(a: array<array?<byte>>, i: nat, n: nat, texts: seq<bytes>)
    reads a, BlocksOf(a, i, n)
  {
    && i <= n <= a.Length && n <= |texts|
    && (forall j :: i <= j < n ==> a[j] != null && Holds(a[j], texts[j]))
    && (forall j, k :: i <= j < k < n ==> a[j] != a[k])
  }

  ghost function BlocksOf(a: array<array?<byte>>, i: nat, n: nat): set<object>
    reads a
  {
    set j | i <= j < n && j < a.Length && a[j] != null :: (var o: object := a[j]; o)
  }

  /** Neither the allocator nor a pointer array is one of the blocks. */
  lemma BlocksApart(x: object, a: array<array?<byte>>, i: nat, n: nat)
    requires !(x is array<byte>)
    ensures x !in BlocksOf(a, i, n)
  {
  }

  lemma NoBlocks(a: array<array?<byte>>, i: nat, texts: seq<bytes>)
    requires i <= a.Length && i <= |texts|
    ensures Stack(a, i, i, texts) && BlocksOf(a, i, i) == {}
  {
  }

  lemma FirstBlock(a: array<array?<byte>>, i: nat, n: nat, texts: seq<bytes>)
    requires Stack(a, i, n, texts) && i < n
    ensures a[i] != null && Holds(a[i], texts[i]) && a[i] in BlocksOf(a, i, n) && a[i] !in BlocksOf(a, i + 1, n)
    ensures BlocksOf(a, i, n) == {a[i]} + BlocksOf(a, i + 1, n) && Stack(a, i + 1, n, texts)
  {
    hide Holds;
  }

  /** Stores a text in the next entry. */
  method Push(a: array<array?<byte>>, i: nat, ret: array<byte>, ghost texts: seq<bytes>)
    requires i < a.Length && i < |texts| && Stack(a, 0, i, texts) && Holds(ret, texts[i]) && ret !in BlocksOf(a, 0, i)
    modifies a
    ensures Stack(a, 0, i + 1, texts) && BlocksOf(a, 0, i + 1) == old(BlocksOf(a, 0, i)) + {ret}
  {
    hide Holds;
    a[i] := ret;
  }

  /** Frees the text of an entry. */
  method Pop(h: Heap, a: array<array?<byte>>, i: nat, ghost n: nat, ghost texts: seq<bytes>)
    requires Stack(a, i, n, texts) && i < n && BlocksOf(a, i, n) <= h.live
    modifies h, BlocksOf(a, i, n)
    ensures Stack(a, i + 1, n, texts) && old(BlocksOf(a, i, n)) == BlocksOf(a, i, n)
    ensures h.live == old(h.live) - (BlocksOf(a, i, n) - BlocksOf(a, i + 1, n))
    ensures BlocksOf(a, i + 1, n) <= BlocksOf(a, i, n) && BlocksOf(a, i + 1, n) <= h.live
  {
    hide Holds;
    FirstBlock(a, i, n, texts);
    h.FreeText(a[i]);
  }
}
