/** strlen and cJSON_strdup. */
module CStrings {
  import opened Bytes
  import opened Nodes
  import opened Allocator

  method Strlen(a: array<byte>, ghost s: bytes) returns (n: nat)
    requires Holds(a, s)
    ensures n == |s|
  {
    assert forall i :: 0 <= i < |s| ==> a[i] == s[i];
    n := 0;
    while a[n] != 0
      invariant n <= |s|
      decreases |s| - n
    {
      n := n + 1;
    }
  }

  method Strdup(h: Heap, a: array<byte>, ghost s: bytes) returns (copy: array<byte>)
    requires Holds(a, s)
    modifies h
    ensures fresh(copy) && Holds(copy, s) && h.live == old(h.live) + {copy}
  {
    var len := Strlen(a, s);
    copy := h.Malloc(len + 1);
    forall i | 0 <= i <= len {
      copy[i] := a[i];
    }
    assert copy[..len] == a[..len];
  }
}
