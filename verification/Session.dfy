/** The session protocol as atomic steps: connections, devices, the registry by IMEI, and what is sent. */
module Session {
  import opened Bytes
  import opened Codecs
  import opened Frames
  import opened Devices

  /** A device message, decoded. The sequence number is copied from requests to responses as two raw bytes. */
  datatype Request =
    | Login(imei: bytes, seq0: byte, seq1: byte)
    | Gps(request: GpsRequest, now: int)
    | Ping(seq0: byte, seq1: byte)
    | Alarm(report: GpsRequest, kind: byte, seq0: byte, seq1: byte)
    | Status(seq0: byte, seq1: byte)
    | Sms(seq0: byte, seq1: byte)
    | Operator(kind: byte, token: int, data: bytes)
    | Data
    | Unknown

  datatype Event =
    | Accept
    | Close(conn: nat)
    | Message(conn: nat, request: Request)
    | AppCommand(key: bytes, cmd: int, seqNo: int, data: bytes)
    | Reload(key: bytes)

  /**
   * Live connections with the device each is bound to, every device, the registry under the text of the IMEI, and all
   * that was sent so far. Numbers stand for addresses; none is used twice.
   */
  datatype State = State(conns: map<nat, Option<nat>>, devices: map<nat, Device>, registry: map<bytes, nat>,
                         nextConn: nat, nextDevice: nat, log: seq<Output>)

  const INITIAL: State := State(map[], map[], map[], 0, 0, [])

  /** What holds between any two callbacks. */
  ghost predicate Safe(s: State) {
    && (forall c :: c in s.conns ==> c < s.nextConn && (s.conns[c].Some? ==> s.conns[c].value in s.devices))
    && (forall d :: d in s.devices ==> d < s.nextDevice && Sound(s, d))
    && (forall k :: k in s.registry ==> s.registry[k] in s.devices && ImeiString(s.devices[s.registry[k]].imei) == k)
  }

  /**
   * A device is online exactly when it has a session; the session is a live connection bound to that very device; and
   * the registry knows the device under its own IMEI.
   */
  ghost predicate Sound(s: State, d: nat)
    requires d in s.devices
  {
    var v := s.devices[d];
    && |v.imei| == IMEI_LENGTH && IsShort(v.fix.course)
    && (v.isOnline <==> v.session.Some?)
    && (v.session.Some? ==> v.session.value in s.conns && s.conns[v.session.value] == Some(d))
    && ImeiString(v.imei) in s.registry && s.registry[ImeiString(v.imei)] == d
  }

  function Send(s: State, outputs: seq<Output>): State {
    s.(log := s.log + outputs)
  }

  function SetDevice(s: State, d: nat, v: Device): State {
    s.(devices := s.devices[d := v])
  }

  // Device side

  function NewDevice(imei: bytes): Device {
    Device(imei, false, None, Fix(0, 0, 0, 0), seq(9, i => 0), 0, false)
  }

  /** The device that a login binds the connection to: the one it has, the registered one, or a new one. */
  function Bind(s: State, c: nat, imei: bytes): (r: (State, nat))
    requires Safe(s) && c in s.conns && |imei| == IMEI_LENGTH
    ensures r.1 in r.0.devices
  {
    if s.conns[c].Some? then (s, s.conns[c].value)
    else if ImeiString(imei) in s.registry then
      var d := s.registry[ImeiString(imei)];
      (s.(conns := s.conns[c := Some(d)]), d)
    else
      var d := s.nextDevice;
      (Send(s.(conns := s.conns[c := Some(d)], devices := s.devices[d := NewDevice(imei)],
               registry := s.registry[ImeiString(imei) := d], nextDevice := d + 1), [SaveDid(imei)]), d)
  }

  /** The device is online, and its session is this connection. */
  function Touched(v: Device, c: nat): Device {
    v.(isOnline := true, session := Some(c))
  }

  function LoginStep(s: State, c: nat, imei: bytes, seq0: byte, seq1: byte): State
    requires Safe(s) && c in s.conns && |imei| == IMEI_LENGTH
  {
    var (t, d) := Bind(s, c, imei);
    Send(SetDevice(t, d, Touched(t.devices[d], c)),
         [Write(c, ResponseBytes(CMD_LOGIN, HEADER_SIZE, seq0, seq1)), Subscribe(t.devices[d].imei)])
  }

  function GpsStep(s: State, c: nat, r: GpsRequest, now: int): State
    requires Safe(s) && c in s.conns
  {
    if r.length < MIN_GPS_LENGTH || s.conns[c].None? then s
    else
      var d := s.conns[c].value;
      var (v, outputs) := Filter(Touched(s.devices[d], c), r, now);
      Send(SetDevice(s, d, v), outputs)
  }

  function AlarmStep(s: State, c: nat, r: GpsRequest, kind: byte, seq0: byte, seq1: byte): State
    requires Safe(s) && c in s.conns
  {
    if s.conns[c].None? then s
    else
      var d := s.conns[c].value;
      var v := s.devices[d].(fix := FixOf(r), cell := r.cell);
      Send(SetDevice(s, d, v), [Write(c, ResponseBytes(CMD_ALARM, HEADER_SIZE, seq0, seq1))]
                               + if IsLocated(r) then [PushAlarm(v.imei, kind)] else [])
  }

  /** A response of the device's answer to an app command: the token says which. */
  function OperatorStep(s: State, c: nat, kind: byte, token: int, data: bytes): State
    requires Safe(s) && c in s.conns
  {
    if kind != 1 || s.conns[c].None? then s
    else Send(s, [PushResponse(s.devices[s.conns[c].value].imei, TokenCmd(token), TokenSeq(token), data)])
  }

  function Handle(s: State, c: nat, r: Request): State
    requires Safe(s) && c in s.conns && (r.Login? ==> |r.imei| == IMEI_LENGTH)
  {
    match r
    case Login(imei, seq0, seq1) => LoginStep(s, c, imei, seq0, seq1)
    case Gps(request, now) => GpsStep(s, c, request, now)
    case Ping(seq0, seq1) => Send(s, [Write(c, ResponseBytes(CMD_PING, HEADER_SIZE, seq0, seq1))])
    case Alarm(report, kind, seq0, seq1) => AlarmStep(s, c, report, kind, seq0, seq1)
    case Status(seq0, seq1) =>
      if s.conns[c].None? then s else Send(s, [Write(c, ResponseBytes(CMD_STATUS, HEADER_SIZE, seq0, seq1))])
    case Sms(seq0, seq1) => Send(s, [Write(c, ResponseBytes(CMD_SMS, ResponseSize(CMD_SMS), seq0, seq1))])
    case Operator(kind, token, data) => OperatorStep(s, c, kind, token, data)
    case Data => s
    case Unknown => s
  }

  /** The close and timeout events: the device loses its session, whichever connection that was. */
  function CloseStep(s: State, c: nat): State
    requires Safe(s) && c in s.conns
  {
    var t := s.(conns := s.conns - {c});
    if s.conns[c].None? then t
    else
      var d := s.conns[c].value;
      SetDevice(t, d, s.devices[d].(isOnline := false, session := None))
  }

  // App side

  function AppStep(s: State, key: bytes, cmd: int, seqNo: int, data: bytes): State
    requires Safe(s)
  {
    if key !in s.registry then s
    else
      var v := s.devices[s.registry[key]];
      if !v.isOnline then s else Send(s, [Command(v.session.value, Token(cmd, seqNo), data)])
  }

  /** A device rebuilt from the cloud at start-up; one already registered under the same text is freed. */
  function ReloadStep(s: State, key: bytes): State
    requires Safe(s) && |key| >= 2 * IMEI_LENGTH
  {
    var imei := Imei(key);
    var name, d := ImeiString(imei), s.nextDevice;
    var kept := if name in s.registry then s.devices - {s.registry[name]} else s.devices;
    Send(s.(devices := kept[d := NewDevice(imei)], registry := s.registry[name := d], nextDevice := d + 1),
         [Subscribe(imei)])
  }

  ghost predicate Possible(e: Event) {
    && (e.Message? && e.request.Login? ==> |e.request.imei| == IMEI_LENGTH)
    && (e.Message? && e.request.Gps? ==> WellFormed(e.request.request))
    && (e.Message? && e.request.Alarm? ==> WellFormed(e.request.report))
    && (e.Reload? ==> |e.key| >= 2 * IMEI_LENGTH)
  }

  /** One callback. There are none for a connection that is not live, and devices are reloaded before any connection. */
  function Step(s: State, e: Event): State
    requires Safe(s) && Possible(e)
  {
    match e
    case Accept => s.(conns := s.conns[s.nextConn := None], nextConn := s.nextConn + 1)
    case Close(c) => if c in s.conns then CloseStep(s, c) else s
    case Message(c, r) => if c in s.conns then Handle(s, c, r) else s
    case AppCommand(key, cmd, seqNo, data) => AppStep(s, key, cmd, seqNo, data)
    case Reload(key) => if s.conns == map[] then ReloadStep(s, key) else s
  }

  // Safety of every step

  lemma SafeDevice(s: State, d: nat, v: Device)
    requires Safe(s) && d in s.devices && v.imei == s.devices[d].imei && IsShort(v.fix.course)
    requires v.isOnline <==> v.session.Some?
    requires v.session.Some? ==> v.session.value in s.conns && s.conns[v.session.value] == Some(d)
    ensures Safe(SetDevice(s, d, v))
  {
    hide ImeiString, IsShort;
  }

  lemma SafeSend(s: State, outputs: seq<Output>)
    requires Safe(s)
    ensures Safe(Send(s, outputs))
  {
    hide ImeiString, IsShort;
  }

  lemma SafeBind(s: State, c: nat, imei: bytes)
    requires Safe(s) && c in s.conns && |imei| == IMEI_LENGTH
    ensures var (t, d) := Bind(s, c, imei); Safe(t) && c in t.conns && t.conns[c] == Some(d)
  {
    hide ImeiString, IsShort;
    var key := ImeiString(imei);
    if s.conns[c].None? {
      if key in s.registry {
        SafeBound(s, c, s.registry[key]);
      } else {
        var d := s.nextDevice;
        SafeNewDevice(s, imei);
        var t := s.(devices := s.devices[d := NewDevice(imei)], registry := s.registry[key := d], nextDevice := d + 1);
        SafeBound(t, c, d);
        SafeSend(t.(conns := t.conns[c := Some(d)]), [SaveDid(imei)]);
      }
    }
  }

  lemma SafeBound(s: State, c: nat, d: nat)
    requires Safe(s) && c in s.conns && s.conns[c].None? && d in s.devices
    ensures Safe(s.(conns := s.conns[c := Some(d)]))
  {
    hide ImeiString, IsShort;
  }

  lemma SafeNewDevice(s: State, imei: bytes)
    requires Safe(s) && |imei| == IMEI_LENGTH && ImeiString(imei) !in s.registry
    ensures Safe(s.(devices := s.devices[s.nextDevice := NewDevice(imei)],
                    registry := s.registry[ImeiString(imei) := s.nextDevice], nextDevice := s.nextDevice + 1))
  {
    hide ImeiString;
  }

  lemma SafeClose(s: State, c: nat)
    requires Safe(s) && c in s.conns
    ensures Safe(CloseStep(s, c))
  {
    hide ImeiString, IsShort;
  }

  lemma FilterKeeps(v: Device, r: GpsRequest, now: int)
    requires IsShort(v.fix.course)
    ensures var w := Filter(v, r, now).0;
      w.imei == v.imei && w.isOnline == v.isOnline && w.session == v.session && IsShort(w.fix.course)
  {
  }

  lemma SafeGps(s: State, c: nat, r: GpsRequest, now: int)
    requires Safe(s) && c in s.conns
    ensures Safe(GpsStep(s, c, r, now))
  {
    hide ImeiString, IsShort, Filter;
    if r.length >= MIN_GPS_LENGTH && s.conns[c].Some? {
      var d := s.conns[c].value;
      var v := Touched(s.devices[d], c);
      assert Sound(s, d);
      FilterKeeps(v, r, now);
      SafeDevice(s, d, Filter(v, r, now).0);
      SafeSend(SetDevice(s, d, Filter(v, r, now).0), Filter(v, r, now).1);
    }
  }

  lemma SafeLogin(s: State, c: nat, imei: bytes, seq0: byte, seq1: byte)
    requires Safe(s) && c in s.conns && |imei| == IMEI_LENGTH
    ensures Safe(LoginStep(s, c, imei, seq0, seq1))
  {
    hide ImeiString, IsShort, Bind;
    SafeBind(s, c, imei);
    var (t, d) := Bind(s, c, imei);
    assert Sound(t, d);
    SafeDevice(t, d, Touched(t.devices[d], c));
    SafeSend(SetDevice(t, d, Touched(t.devices[d], c)),
             [Write(c, ResponseBytes(CMD_LOGIN, HEADER_SIZE, seq0, seq1)), Subscribe(t.devices[d].imei)]);
  }

  lemma SafeAlarm(s: State, c: nat, r: GpsRequest, kind: byte, seq0: byte, seq1: byte)
    requires Safe(s) && c in s.conns
    ensures Safe(AlarmStep(s, c, r, kind, seq0, seq1))
  {
    hide ImeiString;
    if s.conns[c].Some? {
      var d := s.conns[c].value;
      var v := s.devices[d].(fix := FixOf(r), cell := r.cell);
      assert Sound(s, d);
      SafeDevice(s, d, v);
      SafeSend(SetDevice(s, d, v), [Write(c, ResponseBytes(CMD_ALARM, HEADER_SIZE, seq0, seq1))]
                                   + if IsLocated(r) then [PushAlarm(v.imei, kind)] else []);
    }
  }

  /** At start-up nothing refers to the device that a reload replaces. */
  lemma SafeReload(s: State, key: bytes)
    requires Safe(s) && s.conns == map[] && |key| >= 2 * IMEI_LENGTH
    ensures Safe(ReloadStep(s, key))
  {
    hide ImeiString, Imei;
    var imei, d := Imei(key), s.nextDevice;
    var name := ImeiString(imei);
    var kept := if name in s.registry then s.devices - {s.registry[name]} else s.devices;
    var t := s.(devices := kept[d := NewDevice(imei)], registry := s.registry[name := d], nextDevice := d + 1);
    ReloadedDevices(s, t, kept, imei);
    ReloadedRegistry(s, t, kept, imei);
    SafeSend(t, [Subscribe(imei)]);
  }

  /** The state after a replacement, in front of the output. */
  ghost predicate Reloaded(s: State, t: State, kept: map<nat, Device>, imei: bytes) {
    && s.conns == map[] && |imei| == IMEI_LENGTH
    && kept == (if ImeiString(imei) in s.registry then s.devices - {s.registry[ImeiString(imei)]} else s.devices)
    && t == s.(devices := kept[s.nextDevice := NewDevice(imei)],
               registry := s.registry[ImeiString(imei) := s.nextDevice], nextDevice := s.nextDevice + 1)
  }

  lemma ReloadedDevices(s: State, t: State, kept: map<nat, Device>, imei: bytes)
    requires Safe(s) && Reloaded(s, t, kept, imei)
    ensures forall e :: e in t.devices ==> e < t.nextDevice && Sound(t, e)
  {
    hide ImeiString;
    forall e | e in t.devices
      ensures e < t.nextDevice && Sound(t, e)
    {
      assert e != s.nextDevice ==> e in s.devices && Sound(s, e);
    }
  }

  lemma ReloadedRegistry(s: State, t: State, kept: map<nat, Device>, imei: bytes)
    requires Safe(s) && Reloaded(s, t, kept, imei)
    ensures forall k :: k in t.registry ==> t.registry[k] in t.devices && ImeiString(t.devices[t.registry[k]].imei) == k
  {
    hide ImeiString;
    forall k | k in t.registry
      ensures t.registry[k] in t.devices && ImeiString(t.devices[t.registry[k]].imei) == k
    {
      assert k != ImeiString(imei) ==> k in s.registry && s.registry[k] in s.devices && Sound(s, s.registry[k]);
    }
  }

  /** Every callback keeps the protocol safe. */
  lemma SafeStep(s: State, e: Event)
    requires Safe(s) && Possible(e)
    ensures Safe(Step(s, e))
  {
    hide Safe, LoginStep, GpsStep, AlarmStep, CloseStep, ReloadStep;
    match e
    case Accept => SafeAccept(s);
    case Close(c) => if c in s.conns { SafeClose(s, c); }
    case Message(c, r) => if c in s.conns { SafeHandle(s, c, r); }
    case AppCommand(key, cmd, seqNo, data) => SafeApp(s, key, cmd, seqNo, data);
    case Reload(key) => if s.conns == map[] { SafeReload(s, key); }
  }

  lemma SafeAccept(s: State)
    requires Safe(s)
    ensures Safe(s.(conns := s.conns[s.nextConn := None], nextConn := s.nextConn + 1))
  {
    hide ImeiString, IsShort;
  }

  lemma SafeApp(s: State, key: bytes, cmd: int, seqNo: int, data: bytes)
    requires Safe(s)
    ensures Safe(AppStep(s, key, cmd, seqNo, data))
  {
    hide ImeiString, IsShort;
    if key in s.registry && s.devices[s.registry[key]].isOnline {
      var v := s.devices[s.registry[key]];
      SafeSend(s, [Command(v.session.value, Token(cmd, seqNo), data)]);
    }
  }

  lemma SafeHandle(s: State, c: nat, r: Request)
    requires Safe(s) && c in s.conns && (r.Login? ==> |r.imei| == IMEI_LENGTH)
    ensures Safe(Handle(s, c, r))
  {
    hide LoginStep, GpsStep, AlarmStep, Send, Safe;
    match r
    case Login(imei, seq0, seq1) => SafeLogin(s, c, imei, seq0, seq1);
    case Gps(request, now) => SafeGps(s, c, request, now);
    case Ping(seq0, seq1) => SafeSend(s, [Write(c, ResponseBytes(CMD_PING, HEADER_SIZE, seq0, seq1))]);
    case Alarm(report, kind, seq0, seq1) => SafeAlarm(s, c, report, kind, seq0, seq1);
    case Status(seq0, seq1) => SafeSend(s, [Write(c, ResponseBytes(CMD_STATUS, HEADER_SIZE, seq0, seq1))]);
    case Sms(seq0, seq1) => SafeSend(s, [Write(c, ResponseBytes(CMD_SMS, ResponseSize(CMD_SMS), seq0, seq1))]);
    case Operator(kind, token, data) => SafeOperator(s, c, kind, token, data);
    case _ =>
  }

  lemma SafeOperator(s: State, c: nat, kind: byte, token: int, data: bytes)
    requires Safe(s) && c in s.conns
    ensures Safe(OperatorStep(s, c, kind, token, data))
  {
    hide ImeiString, IsShort;
    if kind == 1 && s.conns[c].Some? {
      SafeSend(s, [PushResponse(s.devices[s.conns[c].value].imei, TokenCmd(token), TokenSeq(token), data)]);
    }
  }
}
