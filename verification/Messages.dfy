/** Device messages as they lie in memory, and what each of them asks for. */
module Messages {
  import opened Bytes
  import opened Codecs
  import opened Frames
  import opened Devices
  import opened Session

  /** The memory from the receive buffer on: handlers cast a pointer into it, whatever the length of the frame. */
  type Memory = nat -> byte

  function Slice(m: Memory, p: nat, n: nat): (s: bytes)
    ensures |s| == n && forall i :: 0 <= i < n ==> s[i] == m(p + i)
  {
    seq(n, i requires 0 <= i < n => m(p + i))
  }

  /** ntohs and ntohl of a field */
  function U16(m: Memory, p: nat): (n: nat)
    ensures n < 0x1_0000
  {
    m(p) as int * 0x100 + m(p + 1)
  }

  function U32(m: Memory, p: nat): nat {
    U16(m, p) * 0x1_0000 + U16(m, p + 2)
  }

  /** The position in a GPS or alarm message; its length field is read without swapping. */
  function Position(m: Memory, p: nat): (r: GpsRequest)
    ensures WellFormed(r)
  {
    GpsRequest(m(p + 3) as int + m(p + 4) as int * 0x100, U32(m, p + 7), U32(m, p + 11), U32(m, p + 15), m(p + 19),
               U16(m, p + 20), Slice(m, p + 22, 9), m(p + 31))
  }

  /** An operator response that is passed on to the app has at least the bytes that its length is reduced by. */
  ghost predicate Complete(s: State, c: nat, m: Memory, p: nat) {
    c in s.conns && s.conns[c].Some? && m(p + 2) == CMD_OPERAT && m(p + 7) == 1 ==> U16(m, p + 3) >= 5
  }

  /** The data of an operator response: `sizeof(MC_MSG_HEADER) + length - sizeof(MC_MSG_OPERATOR_RSP)` bytes. */
  function OperatorData(m: Memory, p: nat): bytes {
    var n := HEADER_SIZE + U16(m, p + 3) - 12;
    if n < 0 then [] else Slice(m, p + 12, n)
  }

  function Decode(m: Memory, p: nat, now: int): (r: Request)
    ensures Possible(Message(0, r))
  {
    var cmd, seq0, seq1 := m(p + 2), m(p + 5), m(p + 6);
    if cmd == CMD_LOGIN then Request.Login(Slice(m, p + 7, IMEI_LENGTH), seq0, seq1)
    else if cmd == CMD_GPS then Request.Gps(Position(m, p), now)
    else if cmd == CMD_PING then Request.Ping(seq0, seq1)
    else if cmd == CMD_ALARM then Request.Alarm(Position(m, p), m(p + 32), seq0, seq1)
    else if cmd == CMD_STATUS then Request.Status(seq0, seq1)
    else if cmd == CMD_SMS then Request.Sms(seq0, seq1)
    else if cmd == CMD_OPERAT then
      Request.Operator(m(p + 7), FromLittleEndian(m(p + 8), m(p + 9), m(p + 10), m(p + 11)), OperatorData(m, p))
    else if cmd == CMD_DATA then Request.Data
    else Request.Unknown
  }

  /** The length field as GPS handling reads it, against the length of the frame. */
  lemma UnswappedLength(m: Memory, p: nat)
    ensures Position(m, p).length == Swapped(U16(m, p + 3))
  {
    var high, low := m(p + 3) as int, m(p + 4) as int;
    assert (high * 0x100 + low) / 0x100 == high && (high * 0x100 + low) % 0x100 == low;
  }

  /** One event for each frame, in order. */
  function Events(c: nat, m: Memory, p: nat, frames: seq<bytes>, clock: nat -> int): (es: seq<Event>)
    ensures |es| == |frames| && forall i :: 0 <= i < |es| ==> Possible(es[i])
    decreases |frames|
  {
    if frames == [] then []
    else [Message(c, Decode(m, p, clock(p)))] + Events(c, m, p + |frames[0]|, frames[1..], clock)
  }

  /** The same of every frame, at the time when it is handled. */
  ghost predicate CompleteAll(s: State, c: nat, m: Memory, p: nat, frames: seq<bytes>, clock: nat -> int)
    requires Safe(s)
    decreases |frames|
  {
    frames != [] ==>
      var e := Message(c, Decode(m, p, clock(p)));
      SafeStep(s, e);
      Complete(s, c, m, p) && CompleteAll(Step(s, e), c, m, p + |frames[0]|, frames[1..], clock)
  }

  /** The state after a sequence of events. */
  function Steps(s: State, es: seq<Event>): (t: State)
    requires Safe(s) && forall i :: 0 <= i < |es| ==> Possible(es[i])
    ensures Safe(t)
    decreases |es|
  {
    if es == [] then s
    else
      SafeStep(s, es[0]);
      Steps(Step(s, es[0]), es[1..])
  }

  /** One frame in front of the others. */
  lemma FirstEvent(s: State, c: nat, m: Memory, p: nat, f: bytes, frames: seq<bytes>, clock: nat -> int)
    requires Safe(s)
    ensures
      var e := Message(c, Decode(m, p, clock(p)));
      && Safe(Step(s, e))
      && Steps(s, Events(c, m, p, [f] + frames, clock)) == Steps(Step(s, e), Events(c, m, p + |f|, frames, clock))
      && (CompleteAll(s, c, m, p, [f] + frames, clock) <==>
          Complete(s, c, m, p) && CompleteAll(Step(s, e), c, m, p + |f|, frames, clock))
  {
    hide Step, Decode, Safe, Complete;
    var e := Message(c, Decode(m, p, clock(p)));
    SafeStep(s, e);
    var all := [f] + frames;
    assert all[0] == f && all[1..] == frames;
    var es := Events(c, m, p, all, clock);
    assert es[0] == e && es[1..] == Events(c, m, p + |f|, frames, clock);
  }

  /** What the splitter does at a position of the buffer. */
  lemma SplitAt(m: Memory, p: nat, left: nat)
    ensures
      var s := Slice(m, p, left);
      && (StartsFrame(s) <==> left >= PREFIX_SIZE + U16(m, p + 3))
      && (StartsFrame(s) ==> FrameLength(s) == PREFIX_SIZE + U16(m, p + 3))
      && (StartsFrame(s) ==> (Signed(s) <==> m(p) == SIGNATURE && m(p + 1) == SIGNATURE))
      && (StartsFrame(s) && Signed(s) ==>
            var n := FrameLength(s);
            var rest := Split(Slice(m, p + n, left - n));
            Split(s) == Outcome([Slice(m, p, n)] + rest.frames, rest.status))
      && (StartsFrame(s) && !Signed(s) ==> Split(s) == Outcome([], -1))
      && (!StartsFrame(s) ==> Split(s) == Outcome([], 0))
  {
    var s := Slice(m, p, left);
    if StartsFrame(s) {
      var n := FrameLength(s);
      assert s[..n] == Slice(m, p, n);
      assert s[n..] == Slice(m, p + n, left - n);
    }
  }
}
