/** Looking children up by name, without regard to case, and the edits that use the same lookup. */
module Names {
  import opened Bytes
  import opened Nodes
  import opened Lists
  import opened ListEdits

  // Comparing names

  /** tolower in the C locale. */
  function Lower(c: byte): byte {
    if 65 <= c <= 90 then c + 32 else c
  }

  /** The difference at the first position where two strings differ, terminators included. */
  function CompareChars(a: bytes, b: bytes): int {
    if Lower(Head(a)) != Lower(Head(b)) then Lower(Head(a)) as int - Lower(Head(b)) as int
    else if a == [] || b == [] then 0
    else CompareChars(a[1..], b[1..])
  }

  /** A null pointer equals only itself; otherwise the answer is 1, whichever side it is on. */
  function Compare(x: CString, y: CString): int {
    if x.NullString? then (if y.NullString? then 0 else 1)
    else if y.NullString? then 1
    else CompareChars(x.chars, y.chars)
  }

  ghost predicate IsText(x: CString) {
    x.CString? ==> NulFree(x.chars)
  }

  // What comparing equal means, without reference to how it is computed

  /** The same byte, or the two cases of one letter. */
  predicate SameLetter(x: byte, y: byte) {
    x == y || (65 <= x <= 90 && y == x + 32) || (97 <= x <= 122 && y == x - 32)
  }

  predicate SameLetters(a: bytes, b: bytes) {
    |a| == |b| && forall i :: 0 <= i < |a| ==> SameLetter(a[i], b[i])
  }

  /** Two names that differ in case only, or no names at all. */
  predicate SameKey(x: CString, y: CString) {
    x.CString? == y.CString? && (x.CString? ==> SameLetters(x.chars, y.chars))
  }

  lemma LowerLetter(x: byte, y: byte)
    ensures Lower(x) == Lower(y) <==> SameLetter(x, y)
    ensures Lower(x) == 0 <==> x == 0
  {
  }

  lemma FirstLetters(a: bytes, b: bytes)
    requires a != [] && b != []
    ensures SameLetters(a, b) <==> SameLetter(a[0], b[0]) && SameLetters(a[1..], b[1..])
  {
    if SameLetter(a[0], b[0]) && SameLetters(a[1..], b[1..]) {
      forall i | 0 <= i < |a|
        ensures SameLetter(a[i], b[i])
      {
        assert i > 0 ==> a[i] == a[1..][i - 1] && b[i] == b[1..][i - 1];
      }
    }
    if SameLetters(a, b) {
      assert forall i :: 0 <= i < |a| - 1 ==> a[1..][i] == a[i + 1] && b[1..][i] == b[i + 1];
    }
  }

  /**
   * Strings compare equal exactly when they have the same length and, position by position, the same letters up to
   * case.
   */
  lemma {:induction false} EqualUpToCase(a: bytes, b: bytes)
    requires NulFree(a) && NulFree(b)
    ensures CompareChars(a, b) == 0 <==> SameLetters(a, b)
  {
    hide Lower, SameLetter, SameLetters;
    LowerLetter(Head(a), Head(b));
    LowerLetter(Head(b), Head(a));
    if a != [] && b != [] {
      FirstLetters(a, b);
      EqualUpToCase(a[1..], b[1..]);
    } else {
      NoLetters(a, b);
    }
  }

  lemma NoLetters(a: bytes, b: bytes)
    requires a == [] || b == []
    ensures SameLetters(a, b) <==> a == b
  {
  }

  /**
   * Otherwise the answer is the difference at the first position that tells the strings apart, the terminator included,
   * between the lower-case forms `p` and `q` of the two bytes.
   */
  lemma {:induction false} DifferenceAt(a: bytes, b: bytes, i: nat, p: byte, q: byte)
    requires i <= |a| && i <= |b| && SameLetters(a[..i], b[..i]) && NulFree(a) && NulFree(b)
    requires !SameLetter(Head(a[i..]), Head(b[i..]))
    requires SameLetter(Head(a[i..]), p) && !(65 <= p <= 90) && SameLetter(Head(b[i..]), q) && !(65 <= q <= 90)
    ensures CompareChars(a, b) == p as int - q as int
    decreases i
  {
    if i == 0 {
      assert a[0..] == a && b[0..] == b;
    } else {
      assert a[1..][i - 1..] == a[i..] && b[1..][i - 1..] == b[i..];
      assert a[..i][1..] == a[1..][..i - 1] && b[..i][1..] == b[1..][..i - 1];
      FirstLetters(a[..i], b[..i]);
      LowerLetter(a[0], b[0]);
      DifferenceAt(a[1..], b[1..], i - 1, p, q);
    }
  }

  /** Comparing equal means being the same key: an equivalence. */
  lemma SameName(x: CString, y: CString, z: CString)
    requires IsText(x) && IsText(y) && IsText(z)
    ensures Compare(x, y) == 0 <==> SameKey(x, y)
    ensures SameKey(x, x)
    ensures SameKey(x, y) <==> SameKey(y, x)
    ensures SameKey(x, y) && SameKey(y, z) ==> SameKey(x, z)
  {
    hide CompareChars, Lower, SameLetter;
    if x.CString? && y.CString? {
      EqualUpToCase(x.chars, y.chars);
    }
    SameLettersIs();
  }

  lemma SameLettersIs()
    ensures forall x: byte :: SameLetter(x, x)
    ensures forall x: byte, y: byte :: SameLetter(x, y) <==> SameLetter(y, x)
    ensures forall x: byte, y: byte, z: byte :: SameLetter(x, y) && SameLetter(y, z) ==> SameLetter(x, z)
  {
  }

  /** On strings the sign of the answer is a total order up to case. */
  lemma {:induction false} CompareOrders(a: bytes, b: bytes, c: bytes)
    requires NulFree(a) && NulFree(b) && NulFree(c)
    ensures CompareChars(a, b) == -CompareChars(b, a)
    ensures CompareChars(a, b) <= 0 && CompareChars(b, c) <= 0 ==> CompareChars(a, c) <= 0
  {
    if a != [] && b != [] && c != [] {
      CompareOrders(a[1..], b[1..], c[1..]);
    } else if a != [] && b != [] {
      CompareOrders(a[1..], b[1..], []);
    }
  }

  method Strcasecmp(s1: array?<byte>, s2: array?<byte>, ghost x: CString, ghost y: CString) returns (r: int)
    requires s1 == Pointer(x) && s2 == Pointer(y) && ValidText(x) && ValidText(y)
    ensures r == Compare(x, y)
  {
    if s1 == null {
      return if s1 == s2 then 0 else 1;
    }
    if s2 == null {
      return 1;
    }
    ghost var a, b := x.chars, y.chars;
    assert forall k :: 0 <= k < |a| ==> s1[k] == a[k];
    assert forall k :: 0 <= k < |b| ==> s2[k] == b[k];
    var i := 0;
    assert a[0..] == a && b[0..] == b;
    while Lower(s1[i]) == Lower(s2[i])
      invariant i <= |a| && i <= |b| && CompareChars(a[i..], b[i..]) == CompareChars(a, b)
      decreases |a| - i
    {
      if s1[i] == 0 {
        return 0;
      }
      assert a[i..][1..] == a[i + 1..] && b[i..][1..] == b[i + 1..];
      i := i + 1;
    }
    return Lower(s1[i]) as int - Lower(s2[i]) as int;
  }

  // Looking up

  /** The index of the first child whose name compares equal, or the number of children. */
  function FirstMatch(ts: seq<Tree>, key: CString): (i: nat)
    ensures i <= |ts| && (i < |ts| ==> Compare(ts[i].name, key) == 0)
    ensures forall j :: 0 <= j < i ==> Compare(ts[j].name, key) != 0
  {
    if ts == [] || Compare(ts[0].name, key) == 0 then 0 else 1 + FirstMatch(ts[1..], key)
  }

  lemma MatchUnique(ts: seq<Tree>, key: CString, i: nat)
    requires i <= |ts| && (i < |ts| ==> Compare(ts[i].name, key) == 0)
    requires forall j :: 0 <= j < i ==> Compare(ts[j].name, key) != 0
    ensures FirstMatch(ts, key) == i
  {
    hide Compare;
    var m := FirstMatch(ts, key);
    assert m < |ts| ==> Compare(ts[m].name, key) == 0;
  }

  ghost predicate NamesAreText(ts: seq<Tree>) {
    forall i :: 0 <= i < |ts| ==> IsText(ts[i].name)
  }

  /** The lookup finds the first child whose name is the key up to case; past the end, there is none. */
  lemma MatchByKey(ts: seq<Tree>, key: CString)
    requires NamesAreText(ts) && IsText(key)
    ensures var i := FirstMatch(ts, key); i < |ts| ==> SameKey(ts[i].name, key)
    ensures forall j :: 0 <= j < FirstMatch(ts, key) ==> !SameKey(ts[j].name, key)
  {
    hide Compare, IsText, SameKey, FirstMatch;
    forall j | 0 <= j < |ts|
      ensures Compare(ts[j].name, key) == 0 <==> SameKey(ts[j].name, key)
    {
      SameName(ts[j].name, key, key);
    }
  }

  /** Keys that differ in case only find the same child. */
  lemma CaseVariant(ts: seq<Tree>, key: CString, other: CString)
    requires NamesAreText(ts) && IsText(key) && IsText(other) && SameKey(other, key)
    ensures FirstMatch(ts, other) == FirstMatch(ts, key)
  {
    hide Compare, IsText, SameKey, FirstMatch;
    var i := FirstMatch(ts, key);
    forall j | 0 <= j < |ts|
      ensures Compare(ts[j].name, other) == 0 <==> Compare(ts[j].name, key) == 0
    {
      SameName(ts[j].name, other, key);
      SameName(ts[j].name, key, other);
      SameName(other, key, other);
    }
    MatchUnique(ts, other, i);
  }

  /**
   * After a replacement every case variant of the key finds the new item, and the lookup of any other name answers as
   * before.
   */
  lemma ReplaceLookup(ts: seq<Tree>, key: CString, t: Tree, other: CString)
    requires NamesAreText(ts) && IsText(key) && IsText(other) && IsText(t.name) && SameKey(t.name, key)
    requires FirstMatch(ts, key) < |ts|
    ensures
      var us := UpdateAt(ts, FirstMatch(ts, key), t);
      FirstMatch(us, other) == if SameKey(other, key) then FirstMatch(ts, key) else FirstMatch(ts, other)
  {
    hide Compare, IsText, SameKey, FirstMatch, NamesAreText;
    var i := FirstMatch(ts, key);
    var us := UpdateAt(ts, i, t);
    NameIsText(ts, i);
    SameName(other, key, other);
    SameName(ts[i].name, key, other);
    if SameKey(other, key) {
      CaseVariant(ts, key, other);
      SameName(t.name, key, other);
      SameName(t.name, other, key);
      MatchUnique(us, other, i);
    } else {
      DifferentName(t.name, key, other);
      DifferentName(ts[i].name, key, other);
      MatchUnique(us, other, FirstMatch(ts, other));
    }
  }

  lemma DifferentName(x: CString, key: CString, other: CString)
    requires IsText(x) && IsText(key) && IsText(other) && SameKey(x, key) && !SameKey(other, key)
    ensures Compare(x, other) != 0
  {
    hide Compare, IsText, SameKey;
    SameName(other, x, key);
    SameName(x, other, key);
  }

  lemma RemovedAt(ts: seq<Tree>, i: nat, k: nat)
    requires i < |ts| && k < |ts| - 1
    ensures |RemoveAt(ts, i)| == |ts| - 1 && RemoveAt(ts, i)[k] == ts[if k < i then k else k + 1]
  {
  }

  /** After a detachment the key finds the next child of that name, if any. */
  lemma DetachLookup(ts: seq<Tree>, key: CString)
    requires FirstMatch(ts, key) < |ts|
    ensures
      var i := FirstMatch(ts, key);
      FirstMatch(RemoveAt(ts, i), key) == i + FirstMatch(ts[i + 1..], key)
  {
    hide Compare, FirstMatch, RemoveAt;
    var i := FirstMatch(ts, key);
    var rest, n := RemoveAt(ts, i), i + FirstMatch(ts[i + 1..], key);
    RemovedSize(ts, i);
    forall k | 0 <= k < |rest|
      ensures k < n ==> Compare(rest[k].name, key) != 0
      ensures k == n ==> Compare(rest[k].name, key) == 0
    {
      RemovedAt(ts, i, k);
      assert k >= i ==> ts[k + 1] == ts[i + 1..][k - i];
    }
    MatchUnique(rest, key, n);
  }

  lemma RemovedSize(ts: seq<Tree>, i: nat)
    requires i < |ts|
    ensures |RemoveAt(ts, i)| == |ts| - 1
  {
  }

  /** Other names find the child that they found before, or nothing as before. */
  lemma DetachOthers(ts: seq<Tree>, key: CString, other: CString)
    requires NamesAreText(ts) && IsText(key) && IsText(other) && FirstMatch(ts, key) < |ts| && !SameKey(other, key)
    ensures
      var i, m := FirstMatch(ts, key), FirstMatch(ts, other);
      FirstMatch(RemoveAt(ts, i), other) == if m < i then m else m - 1
  {
    hide Compare, IsText, SameKey, FirstMatch, RemoveAt, NamesAreText;
    var i, m := FirstMatch(ts, key), FirstMatch(ts, other);
    NameIsText(ts, i);
    SameName(ts[i].name, key, other);
    DifferentName(ts[i].name, key, other);
    RemovedSize(ts, i);
    var n := if m < i then m else m - 1;
    forall j | 0 <= j < |ts| - 1
      ensures j < n ==> Compare(RemoveAt(ts, i)[j].name, other) != 0
      ensures j == n ==> Compare(RemoveAt(ts, i)[j].name, other) == 0
    {
      RemovedAt(ts, i, j);
    }
    MatchUnique(RemoveAt(ts, i), other, n);
  }

  lemma NameIsText(ts: seq<Tree>, i: nat)
    requires NamesAreText(ts) && i < |ts|
    ensures IsText(ts[i].name)
  {
  }

  /** A new member is found under its name only when no earlier member has that name. */
  lemma AddLookup(ts: seq<Tree>, t: Tree, key: CString)
    requires IsText(t.name) && IsText(key)
    ensures FirstMatch(ts + [t], key) ==
      if FirstMatch(ts, key) < |ts| then FirstMatch(ts, key) else if SameKey(t.name, key) then |ts| else |ts| + 1
  {
    hide Compare, IsText, SameKey, FirstMatch;
    SameName(t.name, key, key);
    var all, i := ts + [t], FirstMatch(ts, key);
    assert forall k :: 0 <= k < |ts| ==> all[k] == ts[k];
    MatchUnique(all, key, if i < |ts| then i else if SameKey(t.name, key) then |ts| else |ts| + 1);
  }

  /** Walks to the first child whose name compares equal to the key, or past the end, and counts the steps. */
  method Find(parent: Node, text: array?<byte>, ghost key: CString, ghost ts: seq<Tree>, ghost deep: bool)
    returns (c: Node?, i: nat)
    requires Family(parent, ts, deep) && text == Pointer(key) && ValidText(key)
    ensures i == FirstMatch(ts, key) && c == if i < |ts| then ts[i].node else null
  {
    hide Compare, Valid, Linked, ObjectsOf, Objects, SeparateAll, Family;
    c := parent.child;
    FamilyNames(parent, ts, deep);
    i := 0;
    assert ts[0..] == ts;
    while c != null
      invariant i <= |ts| && c == First(ts[i..]) && FirstMatch(ts, key) == i + FirstMatch(ts[i..], key)
      decreases |ts| - i
    {
      var r := Strcasecmp(c.name, text, ts[i].name, key);
      if r == 0 {
        return;
      }
      assert ts[i..][1..] == ts[i + 1..];
      i := i + 1;
      c := c.next;
    }
  }

  lemma FamilyNames(parent: Node, ts: seq<Tree>, deep: bool)
    requires Family(parent, ts, deep)
    ensures parent.child == First(ts) && NamesAreText(ts)
    ensures forall i :: 0 <= i < |ts| ==>
      ts[i].node.name == Pointer(ts[i].name) && ValidText(ts[i].name) && ts[i].node.next == First(ts[i + 1..])
  {
    hide Separate, SeparateAll;
    ValidItems(ts, deep);
    forall i | 0 <= i < |ts|
      ensures ts[i].node.name == Pointer(ts[i].name) && ValidText(ts[i].name) && ts[i].node.next == First(ts[i + 1..])
    {
      NextOf(NodesOf(ts), i);
      assert Valid(ts[i], deep);
    }
  }

  /** cJSON_GetObjectItem */
  method GetObjectItem(parent: Node, text: array?<byte>, ghost key: CString, ghost ts: seq<Tree>, ghost deep: bool)
    returns (c: Node?)
    requires Family(parent, ts, deep) && text == Pointer(key) && ValidText(key)
    ensures c == if FirstMatch(ts, key) < |ts| then ts[FirstMatch(ts, key)].node else null
    ensures c == null <==> forall i :: 0 <= i < |ts| ==> !SameKey(ts[i].name, key)
    ensures c != null ==>
      exists i :: 0 <= i < |ts| && c == ts[i].node && SameKey(ts[i].name, key)
                  && forall j :: 0 <= j < i ==> !SameKey(ts[j].name, key)
  {
    hide Compare, SameKey, FirstMatch, Family;
    FamilyNames(parent, ts, deep);
    MatchByKey(ts, key);
    var i;
    c, i := Find(parent, text, key, ts, deep);
  }
}
