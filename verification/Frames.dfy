/** The frames of the device protocol: how they are built, and how a read buffer is split into them. */
module Frames {
  import opened Bytes

  const SIGNATURE: byte := 0x67
  /** `sizeof(MC_MSG_HEADER)`: signature, command, length, sequence number */
  const HEADER_SIZE: nat := 7
  /** `MC_MSG_HEADER_LEN`: the length field counts from the sequence number on */
  const PREFIX_SIZE: nat := 5

  const CMD_LOGIN: byte := 0x01
  const CMD_GPS: byte := 0x02
  const CMD_PING: byte := 0x03
  const CMD_ALARM: byte := 0x04
  const CMD_STATUS: byte := 0x05
  const CMD_SMS: byte := 0x06
  const CMD_OPERAT: byte := 0x80
  const CMD_DATA: byte := 0x81

  // Splitting

  /** `MC_MSG_HEADER_LEN + ntohs(msg->length)` */
  function FrameLength(s: bytes): (n: nat)
    requires |s| >= PREFIX_SIZE
    ensures PREFIX_SIZE <= n < PREFIX_SIZE + 0x1_0000
  {
    PREFIX_SIZE + s[3] as int * 0x100 + s[4]
  }

  /** A complete frame at the start of `s`, signed or not. */
  predicate StartsFrame(s: bytes) {
    |s| >= PREFIX_SIZE && |s| >= FrameLength(s)
  }

  predicate Signed(s: bytes) {
    |s| >= 2 && s[0] == SIGNATURE && s[1] == SIGNATURE
  }

  /** The frames that are dispatched, in order, and the return value. */
  datatype Outcome = Outcome(frames: seq<bytes>, status: int)

  function Split(s: bytes): Outcome
    decreases |s|
  {
    if !StartsFrame(s) then Outcome([], 0)
    else if !Signed(s) then Outcome([], -1)
    else
      var r := Split(s[FrameLength(s)..]);
      Outcome([s[..FrameLength(s)]] + r.frames, r.status)
  }

  /** handle_mc_msg on the bytes of one read. */
  function Handled(s: bytes): Outcome {
    if |s| < HEADER_SIZE then Outcome([], -1) else Split(s)
  }

  function Concat(fs: seq<bytes>): bytes {
    if fs == [] then [] else fs[0] + Concat(fs[1..])
  }

  predicate IsFrame(f: bytes) {
    StartsFrame(f) && |f| == FrameLength(f) && Signed(f)
  }

  ghost predicate AllFrames(fs: seq<bytes>) {
    forall i :: 0 <= i < |fs| ==> IsFrame(fs[i])
  }

  lemma FrameFirst(f: bytes, s: bytes)
    requires IsFrame(f)
    ensures StartsFrame(f + s) && Signed(f + s) && FrameLength(f + s) == |f|
    ensures (f + s)[..|f|] == f && (f + s)[|f|..] == s
  {
  }

  /**
   * A text made of signed frames, followed by something that is not a complete signed frame, is split into exactly
   * these frames; the status says whether what follows is a complete frame without signature.
   */
  lemma {:induction false} SplitConcat(fs: seq<bytes>, tail: bytes)
    requires AllFrames(fs) && !(StartsFrame(tail) && Signed(tail))
    ensures Split(Concat(fs) + tail) == Outcome(fs, if StartsFrame(tail) then -1 else 0)
    decreases |fs|
  {
    if fs == [] {
      assert Concat(fs) + tail == tail;
    } else {
      var rest := Concat(fs[1..]) + tail;
      assert Concat(fs) + tail == fs[0] + rest;
      FrameFirst(fs[0], rest);
      SplitConcat(fs[1..], tail);
      assert [fs[0]] + fs[1..] == fs;
    }
  }

  /** What the splitter dispatches is the maximal run of complete signed frames, and nothing else makes up its input. */
  lemma {:induction false} SplitMaximal(s: bytes) returns (tail: bytes)
    ensures AllFrames(Split(s).frames) && s == Concat(Split(s).frames) + tail
    ensures !(StartsFrame(tail) && Signed(tail)) && (Split(s).status == -1 <==> StartsFrame(tail))
    ensures Split(s).status == 0 || Split(s).status == -1
    decreases |s|
  {
    hide Concat, AllFrames, Signed, FrameLength;
    tail := s;
    if StartsFrame(s) && Signed(s) {
      FrameCut(s);
      var f, rest := s[..FrameLength(s)], s[FrameLength(s)..];
      tail := SplitMaximal(rest);
      FrameMore(f, Split(rest).frames, tail);
    } else {
      NoFrames(s);
    }
  }

  lemma FrameCut(s: bytes)
    requires StartsFrame(s) && Signed(s)
    ensures var n := FrameLength(s); 0 < n <= |s| && IsFrame(s[..n]) && s == s[..n] + s[n..]
  {
  }

  lemma FrameMore(f: bytes, fs: seq<bytes>, tail: bytes)
    requires IsFrame(f) && AllFrames(fs)
    ensures AllFrames([f] + fs) && Concat([f] + fs) + tail == f + (Concat(fs) + tail)
  {
    hide IsFrame;
    assert ([f] + fs)[1..] == fs;
  }

  lemma NoFrames(s: bytes)
    ensures AllFrames([]) && Concat([]) + s == s
  {
  }

  /** The run is unique: any other way to cut signed frames off the front, as far as they go, gives the same frames. */
  lemma SplitUnique(s: bytes, fs: seq<bytes>, tail: bytes)
    requires s == Concat(fs) + tail && AllFrames(fs) && !(StartsFrame(tail) && Signed(tail))
    ensures fs == Split(s).frames
  {
    SplitConcat(fs, tail);
  }

  // Building

  /**
   * A frame as alloc_msg leaves it: the signature, the command and the length are set, the rest is whatever is there.
   */
  ghost predicate Built(f: bytes, cmd: byte, length: nat) {
    && |f| == length >= HEADER_SIZE && Signed(f) && f[2] == cmd
    && f[3] as int * 0x100 + f[4] == (length - PREFIX_SIZE) % 0x1_0000
  }

  /** alloc_msg, with fill_msg_header, set_msg_cmd and set_msg_len. */
  method AllocMsg(cmd: byte, length: nat) returns (msg: array<byte>)
    requires length >= HEADER_SIZE
    ensures fresh(msg) && Built(msg[..], cmd, length)
  {
    msg := new byte[length];
    msg[0], msg[1] := SIGNATURE, SIGNATURE;
    msg[2] := cmd;
    var n := (length - PREFIX_SIZE) % 0x1_0000;
    msg[3], msg[4] := n / 0x100, n % 0x100;
  }

  /** What alloc_msg builds is a frame exactly when the length fits its field. */
  lemma BuiltIsFrame(f: bytes, cmd: byte, length: nat)
    requires Built(f, cmd, length)
    ensures IsFrame(f) <==> length - PREFIX_SIZE < 0x1_0000
  {
  }

  ghost predicate AllBuilt(fs: seq<bytes>) {
    forall i :: 0 <= i < |fs| ==>
      HEADER_SIZE <= |fs[i]| < PREFIX_SIZE + 0x1_0000 && Built(fs[i], fs[i][2], |fs[i]|)
  }

  /**
   * The splitter inverts the serializer: every message once, in order, and an incomplete tail is ignored. Only a tail
   * alone, shorter than a header, is reported.
   */
  lemma HandledInvertsAlloc(fs: seq<bytes>, tail: bytes)
    requires AllBuilt(fs) && !StartsFrame(tail)
    ensures Handled(Concat(fs) + tail) == Outcome(fs, if fs == [] && |tail| < HEADER_SIZE then -1 else 0)
  {
    forall i | 0 <= i < |fs|
      ensures IsFrame(fs[i])
    {
      BuiltIsFrame(fs[i], fs[i][2], |fs[i]|);
    }
    SplitConcat(fs, tail);
    if fs != [] {
      assert Concat(fs) == fs[0] + Concat(fs[1..]);
    }
  }

  /** Anything shorter than a header is refused whole; from seven bytes on the frames of a read are dispatched. */
  lemma HandledConcat(fs: seq<bytes>, tail: bytes)
    requires AllFrames(fs) && !(StartsFrame(tail) && Signed(tail))
    ensures var s := Concat(fs) + tail;
      Handled(s) == if |s| < 7 then Outcome([], -1) else Outcome(fs, if StartsFrame(tail) then -1 else 0)
  {
    SplitConcat(fs, tail);
  }

  // Responses

  /** The sizes in alloc_rspMsg; other commands get no response from it. */
  function ResponseSize(cmd: byte): nat {
    if cmd == CMD_LOGIN || cmd == CMD_PING || cmd == CMD_STATUS then HEADER_SIZE
    else if cmd == CMD_SMS then HEADER_SIZE + 21
    else 0
  }

  /** alloc_rspMsg: a message of the request's command, with its sequence number copied as it stands. */
  method AllocRspMsg(cmd: byte, seq0: byte, seq1: byte) returns (msg: array?<byte>)
    ensures msg == null <==> ResponseSize(cmd) == 0
    ensures msg != null ==> fresh(msg) && Built(msg[..], cmd, ResponseSize(cmd)) && msg[5] == seq0 && msg[6] == seq1
  {
    var size := ResponseSize(cmd);
    if size == 0 {
      return null;
    }
    var m := AllocMsg(cmd, size);
    m[5], m[6] := seq0, seq1;
    msg := m;
  }

  /** The seven bytes that the handlers send of a response. */
  function ResponseBytes(cmd: byte, size: nat, seq0: byte, seq1: byte): bytes
    requires PREFIX_SIZE <= size < PREFIX_SIZE + 0x1_0000
  {
    [SIGNATURE, SIGNATURE, cmd, (size - PREFIX_SIZE) / 0x100, (size - PREFIX_SIZE) % 0x100, seq0, seq1]
  }

  lemma FirstSeven(f: bytes, cmd: byte, size: nat)
    requires Built(f, cmd, size) && size < PREFIX_SIZE + 0x1_0000
    ensures f[..HEADER_SIZE] == ResponseBytes(cmd, size, f[5], f[6])
  {
    HighLow(f[3], f[4], size - PREFIX_SIZE);
  }

  lemma HighLow(high: byte, low: byte, n: nat)
    requires high as int * 0x100 + low == n
    ensures high == n / 0x100 && low == n % 0x100
  {
  }

  /**
   * A response is a whole frame exactly when it is as long as a header: a text message is answered with seven bytes
   * that announce twenty-eight, so they swallow the start of what is sent next.
   */
  lemma WholeResponse(cmd: byte, size: nat, seq0: byte, seq1: byte)
    requires HEADER_SIZE <= size < PREFIX_SIZE + 0x1_0000
    ensures IsFrame(ResponseBytes(cmd, size, seq0, seq1)) <==> size == HEADER_SIZE
    ensures StartsFrame(ResponseBytes(cmd, size, seq0, seq1)) <==> size == HEADER_SIZE
    ensures !IsFrame(ResponseBytes(cmd, ResponseSize(CMD_SMS), seq0, seq1))
  {
  }
}
