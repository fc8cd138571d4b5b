/** The entry points of the device side: reads are split into frames, and every frame is dispatched to its handler. */
module Callbacks {
  import opened Bytes
  import opened Codecs
  import opened Frames
  import opened Devices
  import opened Session
  import opened Messages
  import opened Server

  /** The commands of `msgProcs`, in table order. */
  const MSG_PROCS: seq<byte> := [CMD_LOGIN, CMD_GPS, CMD_PING, CMD_ALARM, CMD_STATUS, CMD_SMS, CMD_OPERAT, CMD_DATA]

  predicate HasProc(cmd: byte) {
    CMD_LOGIN <= cmd <= CMD_SMS || cmd == CMD_OPERAT || cmd == CMD_DATA
  }

  /** The search through the table. */
  method FindProc(cmd: byte) returns (found: bool)
    ensures found <==> HasProc(cmd)
  {
    var i := 0;
    while i < |MSG_PROCS|
      invariant i <= |MSG_PROCS| && forall j :: 0 <= j < i ==> MSG_PROCS[j] != cmd
    {
      if MSG_PROCS[i] == cmd {
        return true;
      }
      i := i + 1;
    }
    Unlisted(cmd);
    found := false;
  }

  lemma Unlisted(cmd: byte)
    requires forall j :: 0 <= j < |MSG_PROCS| ==> MSG_PROCS[j] != cmd
    ensures !HasProc(cmd)
  {
    assert MSG_PROCS[0] == CMD_LOGIN && MSG_PROCS[1] == CMD_GPS && MSG_PROCS[2] == CMD_PING
      && MSG_PROCS[3] == CMD_ALARM;
    assert MSG_PROCS[4] == CMD_STATUS && MSG_PROCS[5] == CMD_SMS && MSG_PROCS[6] == CMD_OPERAT
      && MSG_PROCS[7] == CMD_DATA;
  }

  /**
   * What the handlers return: an error for messages that need a device that is not there, and for GPS messages
   * refused.
   */
  function ReturnCode(s: State, c: nat, r: Request): int
    requires c in s.conns
  {
    match r
    case Gps(q, _) => if q.length < MIN_GPS_LENGTH || s.conns[c].None? then -1 else 0
    case Alarm(_, _, _, _) => if s.conns[c].None? then -1 else 0
    case Status(_, _) => if s.conns[c].None? then -1 else 0
    case Unknown => -1
    case _ => 0
  }

  /**
   * A message that is refused changes nothing and is not answered; alarms and status messages that are not refused
   * are answered, and GPS messages are refused exactly when they are too short or come before the login.
   */
  lemma Refused(s: State, c: nat, r: Request)
    requires Safe(s) && c in s.conns && Possible(Message(c, r))
    ensures ReturnCode(s, c, r) == 0 || ReturnCode(s, c, r) == -1
    ensures ReturnCode(s, c, r) == -1 ==> Handle(s, c, r) == s
    ensures r.Alarm? || r.Status? ==> (ReturnCode(s, c, r) == 0 <==> Handle(s, c, r).log != s.log)
    ensures r.Gps? ==> (ReturnCode(s, c, r) == 0 <==> s.conns[c].Some? && r.request.length >= 12)
    ensures r.Login? || r.Ping? || r.Sms? || r.Operator? || r.Data? ==> ReturnCode(s, c, r) == 0
    ensures r.Unknown? ==> ReturnCode(s, c, r) == -1
  {
    hide Safe, LoginStep, OperatorStep, ResponseBytes, Filter;
    if r.Alarm? && s.conns[c].Some? {
      AlarmAnswered(s, c, r.report, r.kind, r.seq0, r.seq1);
    }
  }

  lemma AlarmAnswered(s: State, c: nat, r: GpsRequest, kind: byte, seq0: byte, seq1: byte)
    requires Safe(s) && c in s.conns && s.conns[c].Some?
    ensures |AlarmStep(s, c, r, kind, seq0, seq1).log| > |s.log|
  {
    hide Safe, ResponseBytes, ImeiString;
  }

  /** handle_one_msg */
  method HandleOneMsg(server: ServerState, m: Memory, p: nat, now: int, ctx: Context) returns (rc: int)
    requires server.Valid() && Live(ctx, server.conns) && Complete(server.Abs(), ctx.id, m, p)
    modifies server, server.conns.Values, server.devices.Values
    ensures server.Valid() && server.conns == old(server.conns)
    ensures fresh(server.devices.Values - old(server.devices.Values))
    ensures server.Abs() == Step(old(server.Abs()), Message(ctx.id, Decode(m, p, now)))
    ensures old(ctx.id in server.Abs().conns) && rc == ReturnCode(old(server.Abs()), ctx.id, Decode(m, p, now))
  {
    hide Handle, Step, Decode, ServerState.Valid, ServerState.Abs, Live, Safe, ReturnCode, Complete;
    Present(server, ctx);
    PossibleRequest(m, p, now, ctx.id);
    StepIsHandle(server.Abs(), ctx.id, Decode(m, p, now));
    var found := FindProc(m(p + 2));
    if !found {
      NoProc(server.Abs(), ctx.id, m, p, now);
      return -1;
    }
    if m(p + 2) == CMD_LOGIN || m(p + 2) == CMD_GPS || m(p + 2) == CMD_ALARM {
      rc := HandleReport(server, m, p, now, ctx);
    } else {
      rc := HandleAnswered(server, m, p, now, ctx);
    }
  }

  /** The entries mc_login, mc_gps and mc_alarm, which update the device. */
  method HandleReport(server: ServerState, m: Memory, p: nat, now: int, ctx: Context) returns (rc: int)
    requires server.Valid() && Live(ctx, server.conns)
    requires m(p + 2) == CMD_LOGIN || m(p + 2) == CMD_GPS || m(p + 2) == CMD_ALARM
    modifies server, server.conns.Values, server.devices.Values
    ensures server.Valid() && server.conns == old(server.conns)
    ensures fresh(server.devices.Values - old(server.devices.Values))
    ensures old(ctx.id in server.Abs().conns && Safe(server.Abs()))
    ensures server.Abs() == Handle(old(server.Abs()), ctx.id, Decode(m, p, now))
    ensures rc == ReturnCode(old(server.Abs()), ctx.id, Decode(m, p, now))
  {
    hide Handle, Decode, ServerState.Valid, ServerState.Abs, Position, Slice, Live;
    Present(server, ctx);
    Decoded(m, p, now);
    rc := 0;
    if m(p + 2) == CMD_LOGIN {
      server.Login(ctx, Slice(m, p + 7, IMEI_LENGTH), m(p + 5), m(p + 6));
    } else if m(p + 2) == CMD_GPS {
      rc := server.Gps(ctx, Position(m, p), now);
    } else {
      rc := server.Alarm(ctx, Position(m, p), m(p + 32), m(p + 5), m(p + 6));
    }
  }

  /** The other entries, which only send. */
  method HandleAnswered(server: ServerState, m: Memory, p: nat, now: int, ctx: Context) returns (rc: int)
    requires server.Valid() && Live(ctx, server.conns) && Complete(server.Abs(), ctx.id, m, p)
    requires HasProc(m(p + 2)) && m(p + 2) != CMD_LOGIN && m(p + 2) != CMD_GPS && m(p + 2) != CMD_ALARM
    modifies server`log
    ensures server.Valid() && old(ctx.id in server.Abs().conns && Safe(server.Abs()))
    ensures server.Abs() == Handle(old(server.Abs()), ctx.id, Decode(m, p, now))
    ensures rc == ReturnCode(old(server.Abs()), ctx.id, Decode(m, p, now))
  {
    hide Handle, Decode, ServerState.Valid, ServerState.Abs, OperatorData, FromLittleEndian, Live;
    Present(server, ctx);
    Decoded(m, p, now);
    rc := 0;
    var cmd, seq0, seq1 := m(p + 2), m(p + 5), m(p + 6);
    if cmd == CMD_PING {
      server.Ping(ctx, seq0, seq1);
    } else if cmd == CMD_STATUS {
      rc := server.Status(ctx, seq0, seq1);
    } else if cmd == CMD_SMS {
      server.Sms(ctx, seq0, seq1);
    } else if cmd == CMD_OPERAT {
      server.Operator(ctx, m(p + 7), FromLittleEndian(m(p + 8), m(p + 9), m(p + 10), m(p + 11)), OperatorData(m, p));
    } else {
      Unhandled(server.Abs(), ctx.id);
    }
  }

  lemma Present(server: ServerState, ctx: Context)
    requires server.Valid() && Live(ctx, server.conns)
    ensures ctx.id in server.Abs().conns && ctx in server.conns.Values && Safe(server.Abs())
    ensures server.Abs().conns[ctx.id].None? <==> ctx.obj == null
  {
    hide Safe;
    server.AbsAt(ctx);
  }

  lemma StepIsHandle(s: State, c: nat, r: Request)
    requires Safe(s) && c in s.conns && Possible(Message(c, r))
    ensures Step(s, Message(c, r)) == Handle(s, c, r)
  {
    hide Handle, Safe;
  }

  lemma PossibleRequest(m: Memory, p: nat, now: int, c: nat)
    ensures Possible(Message(c, Decode(m, p, now)))
  {
    hide Decode;
    assert Possible(Message(0, Decode(m, p, now)));
  }

  lemma NoProc(s: State, c: nat, m: Memory, p: nat, now: int)
    requires Safe(s) && c in s.conns && !HasProc(m(p + 2)) && Possible(Message(c, Decode(m, p, now)))
    ensures Handle(s, c, Decode(m, p, now)) == s && ReturnCode(s, c, Decode(m, p, now)) == -1
  {
    hide Handle, Safe, Decode;
    Decoded(m, p, now);
    Unhandled(s, c);
  }

  lemma Decoded(m: Memory, p: nat, now: int)
    ensures
      var cmd, r := m(p + 2), Decode(m, p, now);
      && Possible(Message(0, r))
      && (cmd == CMD_LOGIN ==> r == Request.Login(Slice(m, p + 7, IMEI_LENGTH), m(p + 5), m(p + 6)))
      && (cmd == CMD_GPS ==> r == Request.Gps(Position(m, p), now))
      && (cmd == CMD_PING ==> r == Request.Ping(m(p + 5), m(p + 6)))
      && (cmd == CMD_ALARM ==> r == Request.Alarm(Position(m, p), m(p + 32), m(p + 5), m(p + 6)))
      && (cmd == CMD_STATUS ==> r == Request.Status(m(p + 5), m(p + 6)))
      && (cmd == CMD_SMS ==> r == Request.Sms(m(p + 5), m(p + 6)))
      && (cmd == CMD_OPERAT ==>
            var token := FromLittleEndian(m(p + 8), m(p + 9), m(p + 10), m(p + 11));
            r == Request.Operator(m(p + 7), token, OperatorData(m, p)))
      && (cmd == CMD_DATA ==> r == Request.Data)
      && (!HasProc(cmd) ==> r == Request.Unknown)
  {
    hide Position, OperatorData, FromLittleEndian, Slice;
  }

  lemma Unhandled(s: State, c: nat)
    requires Safe(s) && c in s.conns
    ensures Handle(s, c, Request.Data) == s && Handle(s, c, Request.Unknown) == s
  {
  }

  /** What is still to be handled, from position `p` with `left` bytes, leads to `final` and to `status`. */
  ghost predicate Remaining(s: State, c: nat, m: Memory, p: nat, left: nat, clock: nat -> int, final: State,
                            status: int) {
    && Safe(s)
    && var r := Split(Slice(m, p, left));
    && r.status == status && CompleteAll(s, c, m, p, r.frames, clock)
    && Steps(s, Events(c, m, p, r.frames, clock)) == final
  }

  lemma RemainingStep(s: State, c: nat, m: Memory, p: nat, left: nat, clock: nat -> int, final: State, status: int)
    requires Remaining(s, c, m, p, left, clock, final, status)
    ensures left < PREFIX_SIZE + U16(m, p + 3) ==> s == final && status == 0
    ensures left >= PREFIX_SIZE + U16(m, p + 3) && !(m(p) == SIGNATURE && m(p + 1) == SIGNATURE) ==>
      s == final && status == -1
    ensures left >= PREFIX_SIZE + U16(m, p + 3) && m(p) == SIGNATURE && m(p + 1) == SIGNATURE ==>
      var n := PREFIX_SIZE + U16(m, p + 3);
      && Complete(s, c, m, p)
      && Remaining(Step(s, Message(c, Decode(m, p, clock(p)))), c, m, p + n, left - n, clock, final, status)
  {
    hide Step, Safe, Decode, Slice, Complete, FrameLength;
    SplitAt(m, p, left);
    var t := Slice(m, p, left);
    if StartsFrame(t) && Signed(t) {
      var n := FrameLength(t);
      var rest := Split(Slice(m, p + n, left - n)).frames;
      FirstEvent(s, c, m, p, Slice(m, p, n), rest, clock);
      var all := [Slice(m, p, n)] + rest;
      assert all[0] == Slice(m, p, n) && all[1..] == rest;
    }
  }

  /**
   * handle_mc_msg: the complete signed frames of the read are handled in order, each once, whatever lies behind the
   * `msgLen` bytes; a complete frame without signature ends the read with an error.
   */
  method HandleMcMsg(server: ServerState, m: Memory, msgLen: nat, clock: nat -> int, ctx: Context) returns (status: int)
    requires server.Valid() && Live(ctx, server.conns)
    requires CompleteAll(server.Abs(), ctx.id, m, 0, Handled(Slice(m, 0, msgLen)).frames, clock)
    modifies server, server.conns.Values, server.devices.Values
    ensures server.Valid() && server.conns == old(server.conns)
    ensures fresh(server.devices.Values - old(server.devices.Values))
    ensures
      var r := Handled(Slice(m, 0, msgLen));
      status == r.status && server.Abs() == Steps(old(server.Abs()), Events(ctx.id, m, 0, r.frames, clock))
  {
    hide Step, Steps, Events, Split, CompleteAll, Decode;
    hide Remaining, ServerState.Abs, ServerState.Valid, Live, U16, Slice, Safe;
    Present(server, ctx);
    if msgLen < HEADER_SIZE {
      NoEvents(server.Abs(), ctx.id, m, clock);
      return -1;
    }
    var p, left := 0, msgLen;
    ghost var r := Split(Slice(m, 0, msgLen));
    ghost var final := Steps(server.Abs(), Events(ctx.id, m, 0, r.frames, clock));
    Starting(server.Abs(), ctx.id, m, msgLen, clock);
    while left >= PREFIX_SIZE + U16(m, p + 3)
      invariant server.Valid() && server.conns == old(server.conns) && Live(ctx, server.conns)
      invariant fresh(server.devices.Values - old(server.devices.Values))
      invariant 0 <= p && 0 <= left && Remaining(server.Abs(), ctx.id, m, p, left, clock, final, r.status)
      decreases left
    {
      RemainingStep(server.Abs(), ctx.id, m, p, left, clock, final, r.status);
      if m(p) != SIGNATURE || m(p + 1) != SIGNATURE {
        return -1;
      }
      var _ := HandleOneMsg(server, m, p, clock(p), ctx);
      var n := PREFIX_SIZE + U16(m, p + 3);
      left := left - n;
      p := p + n;
    }
    RemainingStep(server.Abs(), ctx.id, m, p, left, clock, final, r.status);
    status := 0;
  }

  lemma NoEvents(s: State, c: nat, m: Memory, clock: nat -> int)
    requires Safe(s)
    ensures Steps(s, Events(c, m, 0, [], clock)) == s
  {
  }

  lemma Starting(s: State, c: nat, m: Memory, msgLen: nat, clock: nat -> int)
    requires Safe(s) && CompleteAll(s, c, m, 0, Split(Slice(m, 0, msgLen)).frames, clock)
    ensures
      var r := Split(Slice(m, 0, msgLen));
      Remaining(s, c, m, 0, msgLen, clock, Steps(s, Events(c, m, 0, r.frames, clock)), r.status)
  {
    hide Steps, Events, Split, CompleteAll, Safe;
  }

  /** One bufferevent_read: the buffer and how many bytes of it were filled. */
  datatype Read = Read(memory: Memory, n: nat, clock: nat -> int)

  /** Reads go on until one brings nothing; frames do not reach from one read into the next. */
  function ReadEvents(c: nat, rs: seq<Read>): (es: seq<Event>)
    ensures forall i :: 0 <= i < |es| ==> Possible(es[i])
    decreases |rs|
  {
    if rs == [] || rs[0].n == 0 then []
    else
      var r := rs[0];
      Events(c, r.memory, 0, Handled(Slice(r.memory, 0, r.n)).frames, r.clock) + ReadEvents(c, rs[1..])
  }

  /** The operator responses among them are complete. */
  ghost predicate CompleteReads(s: State, c: nat, rs: seq<Read>)
    requires Safe(s)
    decreases |rs|
  {
    rs != [] && rs[0].n != 0 ==>
      var r := rs[0];
      var frames := Handled(Slice(r.memory, 0, r.n)).frames;
      && CompleteAll(s, c, r.memory, 0, frames, r.clock)
      && CompleteReads(Steps(s, Events(c, r.memory, 0, frames, r.clock)), c, rs[1..])
  }

  lemma {:induction false} StepsJoin(s: State, a: seq<Event>, b: seq<Event>)
    requires Safe(s) && (forall i :: 0 <= i < |a| ==> Possible(a[i])) && (forall i :: 0 <= i < |b| ==> Possible(b[i]))
    ensures Steps(s, a + b) == Steps(Steps(s, a), b)
    decreases |a|
  {
    hide Step, Safe, Possible;
    if a == [] {
      assert a + b == b;
    } else {
      SafeStep(s, a[0]);
      assert (a + b)[1..] == a[1..] + b && (a + b)[0] == a[0];
      StepsJoin(Step(s, a[0]), a[1..], b);
    }
  }

  lemma NextRead(s: State, c: nat, rs: seq<Read>)
    requires Safe(s) && rs != [] && rs[0].n != 0
    ensures
      var r := rs[0];
      var frames := Handled(Slice(r.memory, 0, r.n)).frames;
      var t := Steps(s, Events(c, r.memory, 0, frames, r.clock));
      && Steps(s, ReadEvents(c, rs)) == Steps(t, ReadEvents(c, rs[1..]))
      && (CompleteReads(s, c, rs) <==> CompleteAll(s, c, r.memory, 0, frames, r.clock) && CompleteReads(t, c, rs[1..]))
  {
    hide Steps, Events, Handled, Safe, CompleteAll;
    var r := rs[0];
    StepsJoin(s, Events(c, r.memory, 0, Handled(Slice(r.memory, 0, r.n)).frames, r.clock), ReadEvents(c, rs[1..]));
  }

  lemma NoRead(s: State, c: nat, rs: seq<Read>)
    requires Safe(s) && (rs == [] || rs[0].n == 0)
    ensures Steps(s, ReadEvents(c, rs)) == s
  {
  }

  /** read_cb */
  method ReadCb(server: ServerState, ctx: Context, rs: seq<Read>)
    requires server.Valid() && Live(ctx, server.conns) && CompleteReads(server.Abs(), ctx.id, rs)
    modifies server, server.conns.Values, server.devices.Values
    ensures server.Valid() && server.conns == old(server.conns)
    ensures fresh(server.devices.Values - old(server.devices.Values))
    ensures server.Abs() == Steps(old(server.Abs()), ReadEvents(ctx.id, rs))
  {
    hide Steps, ReadEvents, Events, Handled, ServerState.Abs, ServerState.Valid, Live, Slice, Safe;
    hide CompleteAll, CompleteReads;
    Present(server, ctx);
    ghost var final := Steps(server.Abs(), ReadEvents(ctx.id, rs));
    var i := 0;
    assert rs[0..] == rs;
    while i < |rs| && rs[i].n > 0
      invariant 0 <= i <= |rs|
      invariant server.Valid() && server.conns == old(server.conns) && Live(ctx, server.conns) && Safe(server.Abs())
      invariant fresh(server.devices.Values - old(server.devices.Values))
      invariant Steps(server.Abs(), ReadEvents(ctx.id, rs[i..])) == final
      invariant CompleteReads(server.Abs(), ctx.id, rs[i..])
    {
      var r := rs[i];
      NextRead(server.Abs(), ctx.id, rs[i..]);
      assert rs[i..][1..] == rs[i + 1..];
      var _ := HandleMcMsg(server, r.memory, r.n, r.clock, ctx);
      Present(server, ctx);
      i := i + 1;
    }
    NoRead(server.Abs(), ctx.id, rs[i..]);
  }
}
