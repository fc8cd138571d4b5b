/** cJSON_Minify rewrites its text in place; the write position never passes the read position. */
module Minifier {
  import opened Bytes
  import opened Nodes
  import opened Strings
  import opened MinifyText

  /** The text from `at` on is untouched; what is written so far, with what is still to come, makes up the result. */
  ghost predicate Working(json: array<byte>, s: bytes, into: nat, at: nat)
    reads json
  {
    && into <= at <= |s| < json.Length && Unread(json, s, at)
    && Shrink(s).Kept? && Prefix(json[..into], Shrink(s[at..])) == Shrink(s)
  }

  ghost predicate Unread(json: array<byte>, s: bytes, at: nat)
    requires |s| < json.Length
    reads json
  {
    json[|s|] == 0 && NulFree(s) && forall i :: at <= i < |s| ==> json[i] == s[i]
  }

  lemma {:induction false} ShrinkNulFree(s: bytes)
    requires NulFree(s) && Shrink(s).Kept?
    ensures NulFree(Shrink(s).text)
    decreases |s|
  {
    if s != [] {
      if IsBlank(s[0]) {
        ShrinkNulFree(s[1..]);
      } else if s[0] == SLASH && Head(s[1..]) == SLASH {
        LineSuffix(s);
        ShrinkNulFree(AfterLine(s));
      } else if s[0] == SLASH && Head(s[1..]) == STAR {
        CommentSuffix(s);
        ShrinkNulFree(CommentEnd(s)[2..]);
      } else if s[0] == QUOTE {
        ClosingSuffix(s[1..]);
        ShrinkNulFree(Closing(s[1..])[1..]);
      } else {
        ShrinkNulFree(s[1..]);
      }
    }
  }

  lemma {:induction false} LineSuffix(s: bytes)
    ensures AfterLine(s) == s[|s| - |AfterLine(s)|..]
  {
    if s != [] && s[0] != NEWLINE {
      LineSuffix(s[1..]);
    }
  }

  lemma {:induction false} CommentSuffix(s: bytes)
    ensures CommentEnd(s) == s[|s| - |CommentEnd(s)|..]
  {
    if s != [] && !(s[0] == STAR && Head(s[1..]) == SLASH) {
      CommentSuffix(s[1..]);
    }
  }

  lemma {:induction false} ClosingSuffix(s: bytes)
    ensures |Closing(s)| <= |s| && Closing(s) == s[|s| - |Closing(s)|..]
    decreases |s|
  {
    if s != [] && s[0] != QUOTE {
      if s[0] != BACKSLASH {
        ClosingSuffix(s[1..]);
      } else if |s| >= 2 {
        ClosingSuffix(s[2..]);
      }
    }
  }

  /** Skips to the end of the line, or of the text. */
  method SkipLine(json: array<byte>, ghost s: bytes, from: nat) returns (at: nat)
    requires from <= |s| < json.Length && Unread(json, s, from)
    ensures from <= at <= |s| && s[at..] == AfterLine(s[from..])
  {
    at := from;
    while json[at] != 0 && json[at] != NEWLINE
      invariant from <= at <= |s| && AfterLine(s[at..]) == AfterLine(s[from..])
      decreases |s| - at
    {
      assert s[at..][1..] == s[at + 1..];
      at := at + 1;
    }
  }

  /** Skips to the closing star and slash of a comment, and over both. */
  method SkipComment(json: array<byte>, ghost s: bytes, from: nat) returns (at: nat)
    requires from <= |s| < json.Length && Unread(json, s, from) && CommentEnd(s[from..]) != []
    ensures from <= at <= |s| && s[at..] == CommentEnd(s[from..])[2..]
  {
    at := from;
    while json[at] != 0 && !(json[at] == STAR && json[at + 1] == SLASH)
      invariant from <= at <= |s| && CommentEnd(s[at..]) == CommentEnd(s[from..])
      decreases |s| - at
    {
      assert s[at..][1..] == s[at + 1..];
      at := at + 1;
    }
    assert s[at..][1..] == s[at + 1..];
    at := at + 2;
  }

  /** Moves one byte down and both positions on. */
  method CopyByte(json: array<byte>, ghost s: bytes, into: nat, at: nat)
    requires into <= at < |s| < json.Length && Unread(json, s, at)
    modifies json
    ensures Unread(json, s, at + 1) && json[..into + 1] == old(json[..into]) + [s[at]]
  {
    json[into] := json[at];
  }

  lemma UnreadAt(json: array<byte>, s: bytes, at: nat, i: nat)
    requires at <= i <= |s| < json.Length && Unread(json, s, at)
    ensures json[i] == 0 <==> i == |s|
    ensures i < |s| ==> json[i] == s[i]
  {
  }

  /** A byte inside a literal, with the one it escapes. */
  method CopyUnit(json: array<byte>, ghost s: bytes, w: nat, from: nat) returns (into: nat, at: nat)
    requires w <= from < |s| < json.Length && Unread(json, s, from) && s[from] != QUOTE && Closing(s[from..]) != []
    modifies json
    ensures from < at <= |s| && into == w + (at - from) && Closing(s[at..]) == Closing(s[from..])
    ensures Unread(json, s, at) && json[..into] == old(json[..w]) + s[from..at]
  {
    hide Unread;
    UnreadAt(json, s, from, from);
    ghost var t := s[from..];
    assert t[1..] == s[from + 1..] && (|t| >= 2 ==> t[2..] == s[from + 2..]);
    into, at := w, from;
    if json[at] == BACKSLASH {
      CopyByte(json, s, into, at);
      into, at := into + 1, at + 1;
    }
    CopyByte(json, s, into, at);
    into, at := into + 1, at + 1;
  }

  lemma SliceJoin(before: bytes, s: bytes, i: nat, j: nat, k: nat)
    requires i <= j <= k <= |s|
    ensures before + s[i..j] + s[j..k] == before + s[i..k]
    ensures j < |s| ==> s[j..j + 1] == [s[j]]
  {
  }

  lemma ClosingHere(s: bytes, at: nat)
    requires at <= |s| && Closing(s[at..]) != [] && (at < |s| ==> s[at] == QUOTE)
    ensures at < |s| && Closing(s[at..]) == s[at..]
  {
  }

  /** A string literal with both quotes, which is closed. */
  method CopyLiteral(json: array<byte>, ghost s: bytes, w: nat, from: nat) returns (into: nat, at: nat)
    requires w <= from < |s| < json.Length && Unread(json, s, from) && Closing(s[from + 1..]) != []
    modifies json
    ensures from < at <= |s| && into == w + (at - from) && s[at - 1..] == Closing(s[from + 1..])
    ensures Unread(json, s, at) && json[..into] == old(json[..w]) + s[from..at]
  {
    hide Unread, Closing;
    ghost var before := json[..w];
    CopyByte(json, s, w, from);
    into, at := w + 1, from + 1;
    while json[at] != 0 && json[at] != QUOTE
      invariant from < at <= |s| && into == w + (at - from) && Unread(json, s, at)
      invariant Closing(s[at..]) == Closing(s[from + 1..]) && json[..into] == before + s[from..at]
      decreases |s| - at
    {
      UnreadAt(json, s, at, at);
      ghost var here := at;
      into, at := CopyUnit(json, s, into, at);
      SliceJoin(before, s, from, here, at);
    }
    UnreadAt(json, s, at, at);
    ClosingHere(s, at);
    SliceJoin(before, s, from, at, at + 1);
    CopyByte(json, s, into, at);
    into, at := into + 1, at + 1;
  }

  method Minify(json: array<byte>, ghost s: bytes)
    requires Holds(json, s) && Shrink(s).Kept?
    modifies json
    ensures Holds(json, Shrink(s).text)
  {
    hide Working, Shrink;
    var into: nat, at: nat := 0, 0;
    Starting(json, s);
    WorkingAt(json, s, into, at);
    while json[at] != 0
      invariant Working(json, s, into, at) && into <= at <= |s| < json.Length
      decreases |s| - at
    {
      into, at := Turn(json, s, into, at);
      WorkingAt(json, s, into, at);
    }
    Finished(json, s, into, at);
    json[into] := 0;
  }

  lemma Starting(json: array<byte>, s: bytes)
    requires Holds(json, s) && Shrink(s).Kept?
    ensures Working(json, s, 0, 0)
  {
    assert s[0..] == s && forall i :: 0 <= i < |s| ==> json[i] == s[i];
    PrefixNothing(Shrink(s));
    assert json[..0] == [];
  }

  lemma Finished(json: array<byte>, s: bytes, into: nat, at: nat)
    requires Working(json, s, into, at) && json[at] == 0
    ensures json[..into] == Shrink(s).text && NulFree(Shrink(s).text)
  {
    assert at == |s| && s[at..] == [];
    ShrinkNulFree(s);
    ShrinkEnd();
  }

  /** What a turn copies moves from the text to come to the text written. */
  lemma Moved(json: array<byte>, s: bytes, before: bytes, from: nat, x: bytes, into: nat, at: nat)
    requires from <= at <= |s| < json.Length && into <= at && Unread(json, s, at) && Shrink(s).Kept?
    requires Prefix(before, Shrink(s[from..])) == Shrink(s)
    requires Shrink(s[from..]) == Prefix(x, Shrink(s[at..])) && json[..into] == before + x
    ensures Working(json, s, into, at)
  {
    hide Unread, Shrink;
    PrefixTwice(before, x, Shrink(s[at..]));
  }

  lemma ShrinkTurn(t: bytes)
    requires t != [] && Shrink(t).Kept?
    ensures IsBlank(t[0]) ==> Shrink(t) == Shrink(t[1..])
    ensures t[0] == SLASH && Head(t[1..]) == SLASH ==> Shrink(t) == Shrink(AfterLine(t))
    ensures t[0] == SLASH && Head(t[1..]) == STAR ==> CommentEnd(t) != [] && Shrink(t) == Shrink(CommentEnd(t)[2..])
    ensures t[0] == QUOTE ==>
      var q := Closing(t[1..]); q != [] && |q| < |t| && Shrink(t) == Prefix(t[..|t| - |q| + 1], Shrink(q[1..]))
    ensures !IsBlank(t[0]) && !(t[0] == SLASH && (Head(t[1..]) == SLASH || Head(t[1..]) == STAR)) && t[0] != QUOTE
      ==> Shrink(t) == Prefix([t[0]], Shrink(t[1..]))
  {
    hide Closing, AfterLine, CommentEnd;
    if t[0] == QUOTE {
      ClosingWithin(t[1..]);
    }
  }

  lemma WorkingAt(json: array<byte>, s: bytes, into: nat, at: nat)
    requires Working(json, s, into, at)
    ensures into <= at <= |s| < json.Length && Unread(json, s, at) && (json[at] == 0 <==> at == |s|)
    ensures at < |s| ==> json[at] == s[at] && json[at + 1] == Head(s[at..][1..])
    ensures Shrink(s).Kept? && Shrink(s[at..]).Kept? && Prefix(json[..into], Shrink(s[at..])) == Shrink(s)
  {
    hide Shrink;
    assert at < |s| ==> s[at..][1..] == s[at + 1..];
  }

  /** One turn of the outer loop. */
  method Turn(json: array<byte>, ghost s: bytes, w: nat, from: nat) returns (into: nat, at: nat)
    requires Working(json, s, w, from) && from < json.Length && json[from] != 0
    modifies json
    ensures Working(json, s, into, at) && from < at
  {
    hide Working, Unread, Shrink, Closing, AfterLine, CommentEnd;
    WorkingAt(json, s, w, from);
    ghost var t, before := s[from..], json[..w];
    assert t[1..] == s[from + 1..];
    ShrinkTurn(t);
    into, at := w, from;
    ghost var x := [];
    PrefixNothing(Shrink(t));
    if json[at] == SPACE || json[at] == TAB || json[at] == RETURN || json[at] == NEWLINE {
      at := at + 1;
      StillUnread(json, s, from, at);
    } else if json[at] == SLASH && json[at + 1] == SLASH {
      at := SkipLine(json, s, at);
      StillUnread(json, s, from, at);
    } else if json[at] == SLASH && json[at + 1] == STAR {
      at := SkipComment(json, s, at);
      StillUnread(json, s, from, at);
    } else if json[at] == QUOTE {
      into, at := CopyLiteral(json, s, into, at);
      x := s[from..at];
      assert t[..at - from] == x && Closing(t[1..])[1..] == s[at..];
    } else {
      CopyByte(json, s, into, at);
      into, at := into + 1, at + 1;
      x := [s[from]];
    }
    assert before + [] == before;
    Moved(json, s, before, from, x, into, at);
  }

  lemma StillUnread(json: array<byte>, s: bytes, from: nat, at: nat)
    requires from <= at && |s| < json.Length && Unread(json, s, from)
    ensures Unread(json, s, at)
  {
  }
}
