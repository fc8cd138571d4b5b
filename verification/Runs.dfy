/** What holds over every run of the session protocol. */
module Runs {
  import opened Bytes
  import opened Codecs
  import opened Frames
  import opened Devices
  import opened Session

  ghost predicate AllPossible(es: seq<Event>) {
    forall i :: 0 <= i < |es| ==> Possible(es[i])
  }

  /** The state after a run; every state on the way is safe. */
  function Run(es: seq<Event>): (s: State)
    requires AllPossible(es)
    ensures Safe(s)
  {
    if es == [] then INITIAL
    else
      var before, e := Run(es[..|es| - 1]), es[|es| - 1];
      SafeStep(before, e);
      Step(before, e)
  }

  // Who is online

  ghost predicate Online(s: State, d: nat) {
    d in s.devices && s.devices[d].isOnline
  }

  /** A login, or a GPS report that passes the length check, on a connection of the device. */
  ghost predicate Touches(s: State, e: Event, d: nat)
    requires Safe(s) && Possible(e)
  {
    && e.Message? && e.conn in s.conns
    && match e.request
       case Login(imei, _, _) => Bind(s, e.conn, imei).1 == d
       case Gps(r, _) => r.length >= MIN_GPS_LENGTH && s.conns[e.conn] == Some(d)
       case _ => false
  }

  /** The end of any connection of the device, even one that a newer login has replaced. */
  ghost predicate Drops(s: State, e: Event, d: nat) {
    e.Close? && e.conn in s.conns && s.conns[e.conn] == Some(d)
  }

  lemma LoginTouches(s: State, c: nat, imei: bytes, seq0: byte, seq1: byte, d: nat)
    requires Safe(s) && c in s.conns && |imei| == IMEI_LENGTH
    ensures
      var t, b := LoginStep(s, c, imei, seq0, seq1), Bind(s, c, imei).1;
      && b in t.devices && t.devices[b].isOnline && t.devices[b].session == Some(c)
      && (d != b ==> (d in s.devices <==> d in t.devices) && (d in s.devices ==> t.devices[d] == s.devices[d]))
  {
    hide ImeiString, IsShort, ResponseBytes;
  }

  lemma GpsTouches(s: State, c: nat, r: GpsRequest, now: int, d: nat)
    requires Safe(s) && c in s.conns
    ensures
      var t := GpsStep(s, c, r, now);
      && (d in s.devices <==> d in t.devices)
      && (r.length >= MIN_GPS_LENGTH && s.conns[c] == Some(d) ==>
            t.devices[d].isOnline && t.devices[d].session == Some(c))
      && (!(r.length >= MIN_GPS_LENGTH && s.conns[c] == Some(d)) && d in s.devices ==> t.devices[d] == s.devices[d])
  {
    hide ImeiString, Filter;
    if s.conns[c].Some? {
      var v := Touched(s.devices[s.conns[c].value], c);
      assert Sound(s, s.conns[c].value);
      FilterKeeps(v, r, now);
    }
  }

  /**
   * One step: a device is online afterwards exactly when it was touched, or was online and no connection of it ended.
   */
  lemma OnlineStep(s: State, e: Event, d: nat)
    requires Safe(s) && Possible(e)
    ensures Online(Step(s, e), d) <==> Touches(s, e, d) || (Online(s, d) && !Drops(s, e, d))
    ensures Touches(s, e, d) ==> Step(s, e).devices[d].session == Some(e.conn)
    ensures Online(Step(s, e), d) && !Touches(s, e, d) ==> Step(s, e).devices[d].session == s.devices[d].session
  {
    hide LoginStep, GpsStep, AlarmStep, ReloadStep, ImeiString, Bind, Filter, Imei, IsShort;
    match e
    case Message(c, r) =>
      if c in s.conns {
        match r
        case Login(imei, seq0, seq1) => LoginTouches(s, c, imei, seq0, seq1, d);
        case Gps(request, now) => GpsTouches(s, c, request, now, d);
        case Alarm(report, kind, seq0, seq1) => AlarmKeeps(s, c, report, kind, seq0, seq1, d);
        case _ =>
      }
    case Reload(key) =>
      if s.conns == map[] {
        ReloadKeeps(s, key, d);
      }
    case _ =>
  }

  lemma AlarmKeeps(s: State, c: nat, r: GpsRequest, kind: byte, seq0: byte, seq1: byte, d: nat)
    requires Safe(s) && c in s.conns
    ensures
      var t := AlarmStep(s, c, r, kind, seq0, seq1);
      && (d in s.devices <==> d in t.devices)
      && (d in s.devices ==>
            t.devices[d].isOnline == s.devices[d].isOnline && t.devices[d].session == s.devices[d].session)
  {
    hide ImeiString, IsShort;
  }

  /** Nobody is online at start-up. */
  lemma ReloadKeeps(s: State, key: bytes, d: nat)
    requires Safe(s) && s.conns == map[] && |key| >= 2 * IMEI_LENGTH
    ensures !Online(s, d) && !Online(ReloadStep(s, key), d)
  {
    hide ImeiString, Imei, IsShort;
    if d in s.devices {
      assert Sound(s, d);
    }
  }

  /** The state in front of event `i` of a run. */
  function Before(es: seq<Event>, i: nat): (s: State)
    requires AllPossible(es) && i < |es|
    ensures Safe(s)
  {
    Run(es[..i])
  }

  /** Event `i` is the last of the run that touched the device, and no connection of it has ended since. */
  ghost predicate LastTouch(es: seq<Event>, d: nat, i: nat)
    requires AllPossible(es) && i < |es|
  {
    && Touches(Before(es, i), es[i], d)
    && forall j :: i < j < |es| ==> !Touches(Before(es, j), es[j], d) && !Drops(Before(es, j), es[j], d)
  }

  lemma BeforeInit(es: seq<Event>, i: nat)
    requires AllPossible(es) && i + 1 < |es|
    ensures Before(es[..|es| - 1], i) == Before(es, i)
  {
    hide Run;
    assert es[..|es| - 1][..i] == es[..i];
  }

  lemma LastTouchInit(es: seq<Event>, d: nat, i: nat)
    requires AllPossible(es) && i + 1 < |es|
    ensures LastTouch(es, d, i) <==>
      && LastTouch(es[..|es| - 1], d, i)
      && !Touches(Before(es, |es| - 1), es[|es| - 1], d) && !Drops(Before(es, |es| - 1), es[|es| - 1], d)
  {
    hide Run, Before, Touches, Drops;
    var init := es[..|es| - 1];
    forall j | 0 <= j < |init|
      ensures Before(init, j) == Before(es, j) && init[j] == es[j]
    {
      BeforeInit(es, j);
    }
  }

  /** A device is online exactly when some event touched it last and its session is the connection of that event. */
  lemma {:induction false} OnlineExactly(es: seq<Event>, d: nat)
    requires AllPossible(es)
    ensures Online(Run(es), d) <==> exists i :: 0 <= i < |es| && LastTouch(es, d, i)
    ensures forall i :: 0 <= i < |es| && LastTouch(es, d, i) ==> Run(es).devices[d].session == Some(es[i].conn)
    decreases |es|
  {
    hide Step, Touches, Drops, LastTouch, Before;
    if es != [] {
      var n := |es| - 1;
      var init := es[..n];
      OnlineExactly(init, d);
      OnlineStep(Run(init), es[n], d);
      LastIs(es, d);
      forall i | 0 <= i < n
        ensures LastTouch(es, d, i) <==>
          LastTouch(init, d, i) && !Touches(Before(es, n), es[n], d) && !Drops(Before(es, n), es[n], d)
      {
        LastTouchInit(es, d, i);
      }
      if Touches(Run(init), es[n], d) {
        assert LastTouch(es, d, n);
      }
      if Online(Run(es), d) && !Touches(Run(init), es[n], d) {
        var i :| 0 <= i < |init| && LastTouch(init, d, i);
        assert LastTouch(es, d, i);
      }
    }
  }

  lemma LastIs(es: seq<Event>, d: nat)
    requires AllPossible(es) && es != []
    ensures Before(es, |es| - 1) == Run(es[..|es| - 1])
    ensures LastTouch(es, d, |es| - 1) <==> Touches(Run(es[..|es| - 1]), es[|es| - 1], d)
  {
    hide Run, Touches, Drops;
  }

  // Bindings

  /** A binding never changes, a closed connection never comes back, and neither does its number. */
  lemma BindingStep(s: State, e: Event, c: nat)
    requires Safe(s) && Possible(e) && c < s.nextConn
    ensures s.nextConn <= Step(s, e).nextConn
    ensures c in Step(s, e).conns ==> c in s.conns && (s.conns[c].Some? ==> Step(s, e).conns[c] == s.conns[c])
  {
    hide GpsStep, AlarmStep, ReloadStep, ImeiString, OperatorStep, AppStep;
    match e
    case Message(b, r) =>
      if b in s.conns {
        match r
        case Gps(request, now) => GpsConns(s, b, request, now);
        case Alarm(report, kind, seq0, seq1) => AlarmConns(s, b, report, kind, seq0, seq1);
        case Operator(kind, token, data) => OperatorConns(s, b, kind, token, data);
        case _ =>
      }
    case Reload(key) => if s.conns == map[] { ReloadConns(s, key); }
    case AppCommand(key, cmd, seqNo, data) => AppConns(s, key, cmd, seqNo, data);
    case _ =>
  }

  lemma GpsConns(s: State, c: nat, r: GpsRequest, now: int)
    requires Safe(s) && c in s.conns
    ensures GpsStep(s, c, r, now).conns == s.conns && GpsStep(s, c, r, now).nextConn == s.nextConn
  {
  }

  lemma AlarmConns(s: State, c: nat, r: GpsRequest, kind: byte, seq0: byte, seq1: byte)
    requires Safe(s) && c in s.conns
    ensures var t := AlarmStep(s, c, r, kind, seq0, seq1); t.conns == s.conns && t.nextConn == s.nextConn
  {
  }

  lemma OperatorConns(s: State, c: nat, kind: byte, token: int, data: bytes)
    requires Safe(s) && c in s.conns
    ensures var t := OperatorStep(s, c, kind, token, data); t.conns == s.conns && t.nextConn == s.nextConn
  {
  }

  lemma ReloadConns(s: State, key: bytes)
    requires Safe(s) && |key| >= 2 * IMEI_LENGTH
    ensures ReloadStep(s, key).conns == s.conns && ReloadStep(s, key).nextConn == s.nextConn
  {
  }

  lemma AppConns(s: State, key: bytes, cmd: int, seqNo: int, data: bytes)
    requires Safe(s)
    ensures AppStep(s, key, cmd, seqNo, data).conns == s.conns
      && AppStep(s, key, cmd, seqNo, data).nextConn == s.nextConn
  {
  }

  /** Over a run: once a connection is bound to a device it stays bound to it for as long as it lives. */
  lemma {:induction false} BindingKept(es: seq<Event>, more: seq<Event>, c: nat)
    requires AllPossible(es + more) && AllPossible(es) && c < Run(es).nextConn
    ensures c < Run(es + more).nextConn
    ensures c in Run(es + more).conns ==> c in Run(es).conns
    ensures c in Run(es + more).conns && Run(es).conns[c].Some? ==> Run(es + more).conns[c] == Run(es).conns[c]
    decreases |more|
  {
    hide Step;
    if more == [] {
      assert es + more == es;
    } else {
      var n := |more| - 1;
      var all := es + more;
      assert all[..|all| - 1] == es + more[..n];
      BindingKept(es, more[..n], c);
      BindingStep(Run(es + more[..n]), all[|all| - 1], c);
    }
  }

  // Commands

  /**
   * The command goes to a live connection bound to the device that the registry has under the key, with the token
   * packed.
   */
  ghost predicate Routes(s: State, e: Event, o: Output)
    requires Safe(s)
  {
    && e.AppCommand? && o.Command? && e.key in s.registry
    && o.conn in s.conns && s.conns[o.conn] == Some(s.registry[e.key])
    && ImeiString(s.devices[s.registry[e.key]].imei) == e.key && Online(s, s.registry[e.key])
    && o.token == Token(e.cmd, e.seqNo) && o.data == e.data
  }

  /** What a step appends to the log; a message is only ever answered on the connection that it came from. */
  lemma StepLog(s: State, e: Event) returns (outputs: seq<Output>)
    requires Safe(s) && Possible(e)
    ensures Step(s, e).log == s.log + outputs
    ensures forall o :: o in outputs && o.Command? ==> Routes(s, e, o)
    ensures forall o :: o in outputs && o.Write? ==> e.Message? && o.conn == e.conn && e.conn in s.conns
    ensures e.AppCommand? ==> (outputs != [] <==> e.key in s.registry && Online(s, s.registry[e.key])) && |outputs| <= 1
    ensures e.AppCommand? ==> forall o :: o in outputs ==> o.Command?
  {
    hide ImeiString, Filter, Imei, ResponseBytes;
    outputs := [];
    match e
    case Message(c, r) =>
      if c in s.conns {
        outputs := HandleLog(s, c, r);
      }
    case AppCommand(key, cmd, seqNo, data) =>
      if key in s.registry && s.devices[s.registry[key]].isOnline {
        var v := s.devices[s.registry[key]];
        assert Sound(s, s.registry[key]);
        outputs := [Command(v.session.value, Token(cmd, seqNo), data)];
      }
    case Reload(key) =>
      if s.conns == map[] {
        outputs := [Subscribe(Imei(key))];
      }
    case _ =>
  }

  lemma HandleLog(s: State, c: nat, r: Request) returns (outputs: seq<Output>)
    requires Safe(s) && c in s.conns && (r.Login? ==> |r.imei| == IMEI_LENGTH)
    ensures Handle(s, c, r).log == s.log + outputs
    ensures forall o :: o in outputs ==> !o.Command? && (o.Write? ==> o.conn == c)
  {
    hide ImeiString, Filter, Imei, ResponseBytes;
    outputs := [];
    match r
    case Login(imei, seq0, seq1) =>
      var (t, d) := Bind(s, c, imei);
      outputs := (if s.conns[c].None? && ImeiString(imei) !in s.registry then [SaveDid(imei)] else [])
                 + [Write(c, ResponseBytes(CMD_LOGIN, HEADER_SIZE, seq0, seq1)), Subscribe(t.devices[d].imei)];
    case Gps(request, now) =>
      if request.length >= MIN_GPS_LENGTH && s.conns[c].Some? {
        outputs := Filter(Touched(s.devices[s.conns[c].value], c), request, now).1;
        FilterSends(Touched(s.devices[s.conns[c].value], c), request, now);
      }
    case Ping(seq0, seq1) => outputs := [Write(c, ResponseBytes(CMD_PING, HEADER_SIZE, seq0, seq1))];
    case Alarm(report, kind, seq0, seq1) =>
      if s.conns[c].Some? {
        outputs := [Write(c, ResponseBytes(CMD_ALARM, HEADER_SIZE, seq0, seq1))]
                   + if IsLocated(report) then [PushAlarm(s.devices[s.conns[c].value].imei, kind)] else [];
      }
    case Status(seq0, seq1) =>
      if s.conns[c].Some? {
        outputs := [Write(c, ResponseBytes(CMD_STATUS, HEADER_SIZE, seq0, seq1))];
      }
    case Sms(seq0, seq1) => outputs := [Write(c, ResponseBytes(CMD_SMS, ResponseSize(CMD_SMS), seq0, seq1))];
    case Operator(kind, token, data) =>
      if kind == 1 && s.conns[c].Some? {
        outputs := [PushResponse(s.devices[s.conns[c].value].imei, TokenCmd(token), TokenSeq(token), data)];
      }
    case _ =>
  }

  lemma FilterSends(v: Device, r: GpsRequest, now: int)
    ensures forall o :: o in Filter(v, r, now).1 ==> !o.Command? && !o.Write?
  {
  }

  /** Over a run: every command that was ever sent was asked for, and went to its own device on a live connection. */
  lemma {:induction false} EveryCommandIsRouted(es: seq<Event>, o: Output)
    requires AllPossible(es) && o in Run(es).log && o.Command?
    ensures exists i :: 0 <= i < |es| && Routes(Before(es, i), es[i], o)
    decreases |es|
  {
    hide Step, Routes;
    if es != [] {
      var n := |es| - 1;
      var outputs := StepLog(Run(es[..n]), es[n]);
      assert Before(es, n) == Run(es[..n]);
      if o !in outputs {
        EveryCommandIsRouted(es[..n], o);
        var i :| 0 <= i < n && Routes(Before(es[..n], i), es[..n][i], o);
        BeforeInit(es, i);
      }
    }
  }

  /**
   * A device that answers a command on its connection, with the token it was given: the app hears from that device,
   * with the command's own sequence number, and with its own code exactly when the sequence number is not negative.
   */
  lemma CommandIsAnswered(s: State, key: bytes, cmd: int, seqNo: int, data: bytes, answer: bytes)
    requires Safe(s) && key in s.registry && Online(s, s.registry[key]) && IsShort(cmd) && IsShort(seqNo)
    ensures
      var t, v := Step(s, AppCommand(key, cmd, seqNo, data)), s.devices[s.registry[key]];
      && v.session.Some? && Safe(t) && v.session.value in t.conns && ImeiString(v.imei) == key
      && t.log == s.log + [Command(v.session.value, Token(cmd, seqNo), data)]
      && var u := Step(t, Message(v.session.value, Operator(1, Token(cmd, seqNo), answer)));
      && |u.log| == |t.log| + 1
      && var p := u.log[|t.log|];
      && p.PushResponse? && p.imei == v.imei && p.seqNo == seqNo && p.data == answer && (p.cmd == cmd <==> seqNo >= 0)
  {
    hide ImeiString, Token, TokenCmd, TokenSeq;
    assert Sound(s, s.registry[key]);
    SafeStep(s, AppCommand(key, cmd, seqNo, data));
    TokenRoundTrip(cmd, seqNo);
  }

  // What does not hold

  /**
   * A device can be offline while a connection bound to it is alive: two connections log in with one IMEI, and the
   * older one is closed.
   */
  lemma LiveButOffline(imei: bytes) returns (es: seq<Event>)
    requires |imei| == IMEI_LENGTH
    ensures AllPossible(es)
    ensures var s := Run(es); 1 in s.conns && s.conns[1] == Some(0) && 0 in s.devices && !s.devices[0].isOnline
  {
    hide Run, Step;
    var login := Login(imei, 0, 0);
    var s0 := RunNothing();
    var s1 := RunAppend([], Accept);
    Accepted(s0);
    var p1 := [] + [Accept];
    var s2 := RunAppend(p1, Message(0, login));
    FirstLogin(s1, imei);
    var p2 := p1 + [Message(0, login)];
    var s3 := RunAppend(p2, Accept);
    Accepted(s2);
    var p3 := p2 + [Accept];
    var s4 := RunAppend(p3, Message(1, login));
    SecondLogin(s3, imei);
    var p4 := p3 + [Message(1, login)];
    var s5 := RunAppend(p4, Close(0));
    OlderClosed(s4);
    es := p4 + [Close(0)];
  }

  lemma RunNothing() returns (s: State)
    ensures s == Run([]) == INITIAL
  {
    s := INITIAL;
  }

  lemma Accepted(s: State)
    requires Safe(s)
    ensures Step(s, Accept) == s.(conns := s.conns[s.nextConn := None], nextConn := s.nextConn + 1)
  {
  }

  lemma FirstLogin(s: State, imei: bytes)
    requires Safe(s) && |imei| == IMEI_LENGTH && s.conns == map[0 := None] && s.registry == map[] && s.nextDevice == 0
    ensures
      var t := Step(s, Message(0, Login(imei, 0, 0)));
      && t.conns == map[0 := Some(0)] && t.registry == map[ImeiString(imei) := 0]
      && t.nextConn == s.nextConn && Online(t, 0)
  {
    hide ImeiString, ResponseBytes;
  }

  lemma SecondLogin(s: State, imei: bytes)
    requires Safe(s) && |imei| == IMEI_LENGTH && s.conns == map[0 := Some(0), 1 := None]
    requires s.registry == map[ImeiString(imei) := 0]
    ensures
      var t := Step(s, Message(1, Login(imei, 0, 0)));
      t.conns == map[0 := Some(0), 1 := Some(0)] && Online(t, 0)
  {
    hide ImeiString, ResponseBytes;
  }

  lemma OlderClosed(s: State)
    requires Safe(s) && s.conns == map[0 := Some(0), 1 := Some(0)]
    ensures
      var t := Step(s, Close(0));
      1 in t.conns && t.conns[1] == Some(0) && 0 in t.devices && !t.devices[0].isOnline
  {
    hide ImeiString;
  }

  lemma RunAppend(es: seq<Event>, e: Event) returns (s: State)
    requires AllPossible(es) && Possible(e)
    ensures AllPossible(es + [e]) && s == Run(es + [e]) == Step(Run(es), e)
  {
    hide Step;
    assert (es + [e])[..|es|] == es;
    s := Run(es + [e]);
  }
}
