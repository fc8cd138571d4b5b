/**
 * What the server sends over a run, told from the events alone: who is connected, who has logged in where, which
 * position was reported last, and what each event is answered with.
 */
module History {
  import opened Bytes
  import opened Codecs
  import opened Frames
  import opened Devices
  import opened Session
  import opened Runs
  import Positions

  // The events so far

  /** Connections are numbered in the order in which they were accepted. */
  function Count(es: seq<Event>): nat {
    if es == [] then 0 else Count(es[..|es| - 1]) + if es[|es| - 1].Accept? then 1 else 0
  }

  /** The connection was accepted and has not been closed. */
  predicate Live(es: seq<Event>, c: nat) {
    es != []
    && var before, e := es[..|es| - 1], es[|es| - 1];
    (e.Accept? && c == Count(before)) || (Live(before, c) && e != Close(c))
  }

  ghost predicate NoneLive(es: seq<Event>) {
    forall c :: !Live(es, c)
  }

  predicate LogsIn(es: seq<Event>, e: Event, c: nat) {
    e.Message? && e.conn == c && e.request.Login? && Live(es, c)
  }

  /** The IMEI of the first login on a connection; later ones do not change it. */
  function Owner(es: seq<Event>, c: nat): Option<bytes> {
    if es == [] then None
    else
      var before, e := es[..|es| - 1], es[|es| - 1];
      if Owner(before, c).None? && LogsIn(before, e, c) then Some(e.request.imei) else Owner(before, c)
  }

  /** The IMEI that a login is about: that of the connection if it has one. */
  function LoginOwner(es: seq<Event>, c: nat, imei: bytes): bytes {
    if Owner(es, c).Some? then Owner(es, c).value else imei
  }

  /** Devices are reloaded before any connection. */
  ghost predicate Reloads(es: seq<Event>, e: Event, imei: bytes) {
    e.Reload? && |e.key| >= 2 * IMEI_LENGTH && NoneLive(es) && Imei(e.key) == imei
  }

  /** Some connection has logged in first with this IMEI, or it was reloaded. */
  ghost predicate Known(es: seq<Event>, imei: bytes) {
    es != []
    && var before, e := es[..|es| - 1], es[|es| - 1];
    || Known(before, imei) || Reloads(before, e, imei)
    || (e.Message? && LogsIn(before, e, e.conn) && Owner(before, e.conn).None? && e.request.imei == imei)
  }

  /** A message on a live connection of the IMEI. */
  predicate From(es: seq<Event>, e: Event, imei: bytes) {
    e.Message? && Live(es, e.conn) && Owner(es, e.conn) == Some(imei)
  }

  /** The position in a message, its course as a signed number of sixteen bits. */
  function PositionIn(r: GpsRequest): Fix {
    Fix(r.lat, r.lon, r.speed, if r.course < 0x8000 then r.course else r.course - 0x1_0000)
  }

  /** A GPS message is used if it is long enough, and located unless no longitude is held. */
  predicate Used(r: GpsRequest, held: Fix) {
    r.length >= 12 && (r.location % 2 == 1 || held.lon == 0)
  }

  /** The last position that the device has reported, or sent with an alarm. */
  ghost function Held(es: seq<Event>, imei: bytes): Fix {
    if es == [] then Fix(0, 0, 0, 0)
    else
      var before, e := es[..|es| - 1], es[|es| - 1];
      var held := Held(before, imei);
      if Reloads(before, e, imei) then Fix(0, 0, 0, 0)
      else if From(before, e, imei) && e.request.Alarm? then PositionIn(e.request.report)
      else if From(before, e, imei) && e.request.Gps? && Used(e.request.request, held) then
        PositionIn(e.request.request)
      else held
  }

  /** A login, or a GPS message that is long enough, is heard from a device. */
  ghost predicate Hears(es: seq<Event>, e: Event, key: bytes) {
    && e.Message? && Live(es, e.conn)
    && match e.request
       case Login(imei, _, _) => ImeiString(LoginOwner(es, e.conn, imei)) == key
       case Gps(r, _) => r.length >= 12 && Owner(es, e.conn).Some? && ImeiString(Owner(es, e.conn).value) == key
       case _ => false
  }

  /** Any connection of the device is closed, or it is reloaded. */
  ghost predicate Loses(es: seq<Event>, e: Event, key: bytes) {
    || (e.Close? && Live(es, e.conn) && Owner(es, e.conn).Some? && ImeiString(Owner(es, e.conn).value) == key)
    || (e.Reload? && |e.key| >= 2 * IMEI_LENGTH && NoneLive(es) && ImeiString(Imei(e.key)) == key)
  }

  /** The connection that the device was last heard on, unless one of its connections was closed since. */
  ghost function Heard(es: seq<Event>, key: bytes): Option<nat> {
    if es == [] then None
    else
      var before, e := es[..|es| - 1], es[|es| - 1];
      if Hears(before, e, key) then Some(e.conn)
      else if Loses(before, e, key) then None
      else Heard(before, key)
  }

  /** What else is known of a device: cell, time, and whether the last report was located. */
  datatype Facts = Facts(cell: bytes, timestamp: int, located: bool)

  const NO_FACTS: Facts := Facts([0, 0, 0, 0, 0, 0, 0, 0, 0], 0, false)

  predicate FromKey(es: seq<Event>, e: Event, key: bytes) {
    e.Message? && Live(es, e.conn) && Owner(es, e.conn).Some? && ImeiString(Owner(es, e.conn).value) == key
  }

  /** A GPS message that is not used leaves its time of arrival; one that repeats the position leaves the cell. */
  function FactsAfter(facts: Facts, held: Fix, g: GpsRequest, now: int): Facts {
    if g.length < 12 then facts
    else if !Used(g, held) then Facts(facts.cell, now, false)
    else
      Facts(if held == PositionIn(g) && g.course < 0x8000 then facts.cell else g.cell, g.timestamp, g.location % 2 == 1)
  }

  /** Alarms tell the cell, but not the time. */
  ghost function FactsOf(es: seq<Event>, key: bytes): Facts {
    if es == [] then NO_FACTS
    else
      var before, e := es[..|es| - 1], es[|es| - 1];
      var facts := FactsOf(before, key);
      if e.Reload? && |e.key| >= 2 * IMEI_LENGTH && NoneLive(before) && ImeiString(Imei(e.key)) == key then NO_FACTS
      else if FromKey(before, e, key) && e.request.Gps? then
        FactsAfter(facts, Held(before, Owner(before, e.conn).value), e.request.request, e.request.now)
      else if FromKey(before, e, key) && e.request.Alarm? then
        Facts(e.request.report.cell, facts.timestamp, facts.located)
      else facts
  }

  // What is sent

  /** Signature, command, length and the sequence number of the request. */
  function Answer(cmd: byte, length: byte, seq0: byte, seq1: byte): bytes {
    [0x67, 0x67, cmd, 0, length, seq0, seq1]
  }

  /** Sixteen bits, signed. */
  function Half(n: int): int {
    if n % 0x1_0000 < 0x8000 then n % 0x1_0000 else n % 0x1_0000 - 0x1_0000
  }

  ghost function Replies(es: seq<Event>, c: nat, r: Request): seq<Output> {
    var owner := Owner(es, c);
    match r
    case Login(imei, seq0, seq1) =>
      (if owner.None? && !Known(es, imei) then [SaveDid(imei)] else [])
      + [Write(c, Answer(1, 2, seq0, seq1)), Subscribe(LoginOwner(es, c, imei))]
    case Gps(g, _) =>
      if owner.None? || !Used(g, Held(es, owner.value)) then []
      else
        [PushGps(owner.value, PositionIn(g), g.timestamp, g.location % 2 == 1)]
        + if Held(es, owner.value) != PositionIn(g) || g.course >= 0x8000 then [SaveGps(owner.value, PositionIn(g))]
          else []
    case Ping(seq0, seq1) => [Write(c, Answer(3, 2, seq0, seq1))]
    case Alarm(g, kind, seq0, seq1) =>
      if owner.None? then []
      else [Write(c, Answer(4, 2, seq0, seq1))] + if g.location % 2 == 1 then [PushAlarm(owner.value, kind)] else []
    case Status(seq0, seq1) => if owner.None? then [] else [Write(c, Answer(5, 2, seq0, seq1))]
    case Sms(seq0, seq1) => [Write(c, Answer(6, 23, seq0, seq1))]
    case Operator(kind, token, data) =>
      if owner.None? || kind != 1 then []
      else [PushResponse(owner.value, Half(token / 0x1_0000), Half(token), data)]
    case _ => []
  }

  /** What an event is answered with, after those before it. */
  ghost function Sent(es: seq<Event>, e: Event): seq<Output> {
    match e
    case Message(c, r) => if Live(es, c) then Replies(es, c, r) else []
    case AppCommand(key, cmd, seqNo, data) =>
      if Heard(es, key).None? then [] else [Command(Heard(es, key).value, Token(cmd, seqNo), data)]
    case Reload(key) => if NoneLive(es) && |key| >= 2 * IMEI_LENGTH then [Subscribe(Imei(key))] else []
    case _ => []
  }

  ghost function SentAll(es: seq<Event>): seq<Output> {
    if es == [] then [] else SentAll(es[..|es| - 1]) + Sent(es[..|es| - 1], es[|es| - 1])
  }

  // The same in terms of the state

  function OwnerIn(s: State, c: nat): Option<bytes>
    requires Safe(s)
  {
    if c in s.conns && s.conns[c].Some? then Some(s.devices[s.conns[c].value].imei) else None
  }

  function SessionIn(s: State, key: bytes): Option<nat>
    requires Safe(s)
  {
    if key in s.registry then s.devices[s.registry[key]].session else None
  }

  function FactsIn(s: State, key: bytes): Facts
    requires Safe(s)
  {
    if key in s.registry then
      var v := s.devices[s.registry[key]];
      Facts(v.cell, v.timestamp, v.isGPSlocated)
    else NO_FACTS
  }

  /** The state knows what the events tell. */
  ghost predicate Agrees(es: seq<Event>, s: State)
    requires Safe(s)
  {
    && s.nextConn == Count(es)
    && (forall c :: c in s.conns <==> Live(es, c))
    && (forall c :: c in s.conns ==> OwnerIn(s, c) == Owner(es, c))
    && (forall c :: c >= Count(es) ==> Owner(es, c).None?)
    && (forall imei :: |imei| == IMEI_LENGTH ==> (ImeiString(imei) in s.registry <==> Known(es, imei)))
    && (forall key :: SessionIn(s, key) == Heard(es, key))
    && (forall key :: FactsIn(s, key) == FactsOf(es, key))
    && (forall imei :: |imei| == IMEI_LENGTH ==> Positions.Held(s, imei) == Held(es, imei))
  }

  lemma Seen(es: seq<Event>, s: State, c: nat)
    requires Safe(s) && Agrees(es, s)
    ensures (c in s.conns <==> Live(es, c)) && (c in s.conns ==> OwnerIn(s, c) == Owner(es, c))
    ensures NoneLive(es) <==> s.conns == map[]
  {
    hide Safe, Owner, OwnerIn, Live;
    if s.conns != map[] {
      var b :| b in s.conns;
      assert Live(es, b);
    }
  }

  lemma Last(es: seq<Event>, e: Event)
    ensures (es + [e])[..|es + [e]| - 1] == es && (es + [e])[|es + [e]| - 1] == e
  {
  }

  // Connections

  lemma LoginConns(s: State, c: nat, imei: bytes, seq0: byte, seq1: byte)
    requires Safe(s) && c in s.conns && |imei| == IMEI_LENGTH
    ensures var t := LoginStep(s, c, imei, seq0, seq1); t.conns.Keys == s.conns.Keys && t.nextConn == s.nextConn
  {
    hide ImeiString, ResponseBytes, IsShort;
  }

  lemma StepConns(s: State, e: Event)
    requires Safe(s) && Possible(e)
    ensures Step(s, e).nextConn == s.nextConn + if e.Accept? then 1 else 0
    ensures forall c :: c in Step(s, e).conns <==> (e.Accept? && c == s.nextConn) || (c in s.conns && e != Close(c))
  {
    hide Safe, LoginStep, GpsStep, AlarmStep, OperatorStep, ReloadStep, AppStep, ImeiString;
    match e
    case Message(b, r) =>
      if b in s.conns {
        match r
        case Login(imei, seq0, seq1) => LoginConns(s, b, imei, seq0, seq1);
        case Gps(request, now) => GpsConns(s, b, request, now);
        case Alarm(report, kind, seq0, seq1) => AlarmConns(s, b, report, kind, seq0, seq1);
        case Operator(kind, token, data) => OperatorConns(s, b, kind, token, data);
        case _ =>
      }
    case Reload(key) => if s.conns == map[] { ReloadConns(s, key); }
    case AppCommand(key, cmd, seqNo, data) => AppConns(s, key, cmd, seqNo, data);
    case _ =>
  }

  // Owners

  /** The devices of live connections keep their IMEI, and connections keep their device. */
  lemma OwnersKept(s: State, t: State, c: nat)
    requires Safe(s) && Safe(t) && c in s.conns && c in t.conns && t.conns[c] == s.conns[c]
    requires forall d :: d in s.devices && d in t.devices ==> t.devices[d].imei == s.devices[d].imei
    ensures OwnerIn(t, c) == OwnerIn(s, c)
  {
    hide ImeiString, IsShort;
  }

  lemma GpsOwners(s: State, c: nat, r: GpsRequest, now: int)
    requires Safe(s) && c in s.conns
    ensures forall d :: d in s.devices && d in GpsStep(s, c, r, now).devices
              ==> GpsStep(s, c, r, now).devices[d].imei == s.devices[d].imei
  {
    hide ImeiString, IsShort, Filter;
    if r.length >= MIN_GPS_LENGTH && s.conns[c].Some? {
      var d := s.conns[c].value;
      assert Sound(s, d);
      FilterKeeps(Touched(s.devices[d], c), r, now);
    }
  }

  lemma AlarmOwners(s: State, c: nat, r: GpsRequest, kind: byte, seq0: byte, seq1: byte)
    requires Safe(s) && c in s.conns
    ensures
      var t := AlarmStep(s, c, r, kind, seq0, seq1);
      forall d :: d in s.devices && d in t.devices ==> t.devices[d].imei == s.devices[d].imei
  {
    hide ImeiString, IsShort;
  }

  lemma CloseOwners(s: State, c: nat)
    requires Safe(s) && c in s.conns
    ensures
      var t := CloseStep(s, c);
      && (forall d :: d in s.devices && d in t.devices ==> t.devices[d].imei == s.devices[d].imei)
      && (forall b :: b in t.conns ==> b in s.conns && t.conns[b] == s.conns[b])
  {
    hide ImeiString, IsShort;
  }

  /** Binding gives the connection its owner, and leaves the others theirs. */
  lemma BindOwner(s: State, c: nat, imei: bytes, b: nat)
    requires Safe(s) && c in s.conns && |imei| == IMEI_LENGTH && b in s.conns && Safe(Bind(s, c, imei).0)
    ensures var t := Bind(s, c, imei).0;
      b in t.conns && OwnerIn(t, b) == if b == c && OwnerIn(s, c).None? then Some(imei) else OwnerIn(s, b)
  {
    hide ImeiString, IsShort;
    if s.conns[c].None? && ImeiString(imei) in s.registry {
      Positions.OwnDevice(s, s.registry[ImeiString(imei)], imei);
    }
  }

  lemma LoginOwners(s: State, c: nat, imei: bytes, seq0: byte, seq1: byte, b: nat)
    requires Safe(s) && c in s.conns && |imei| == IMEI_LENGTH && b in s.conns && Safe(LoginStep(s, c, imei, seq0, seq1))
    ensures OwnerIn(LoginStep(s, c, imei, seq0, seq1), b)
      == if b == c && OwnerIn(s, c).None? then Some(imei) else OwnerIn(s, b)
  {
    hide Safe, Bind, OwnerIn, ResponseBytes;
    SafeBind(s, c, imei);
    BindOwner(s, c, imei, b);
    OwnersKept(Bind(s, c, imei).0, LoginStep(s, c, imei, seq0, seq1), b);
  }

  lemma StepOwner(s: State, e: Event, c: nat)
    requires Safe(s) && Possible(e) && Safe(Step(s, e)) && c in s.conns && c in Step(s, e).conns
    ensures OwnerIn(Step(s, e), c)
      == if OwnerIn(s, c).None? && e.Message? && e.conn == c && e.request.Login? then Some(e.request.imei)
         else OwnerIn(s, c)
  {
    hide Safe, LoginStep, GpsStep, AlarmStep, OperatorStep, ReloadStep, AppStep, CloseStep, ImeiString, OwnerIn;
    var t := Step(s, e);
    match e
    case Accept => AcceptOwner(s, c);
    case Close(b) =>
      if b in s.conns {
        CloseOwners(s, b);
        OwnersKept(s, t, c);
      }
    case Message(b, r) =>
      if b in s.conns {
        HandleOwner(s, b, r, c);
      }
    case AppCommand(key, cmd, seqNo, data) =>
      AppKeeps(s, key, cmd, seqNo, data);
      OwnersKept(s, t, c);
    case Reload(key) =>
  }

  lemma AcceptOwner(s: State, c: nat)
    requires Safe(s) && c in s.conns && Safe(Step(s, Accept))
    ensures OwnerIn(Step(s, Accept), c) == OwnerIn(s, c) && OwnerIn(Step(s, Accept), s.nextConn).None?
  {
    hide ImeiString, IsShort;
  }

  lemma AppKeeps(s: State, key: bytes, cmd: int, seqNo: int, data: bytes)
    requires Safe(s)
    ensures var t := AppStep(s, key, cmd, seqNo, data);
      t.conns == s.conns && t.devices == s.devices && t.registry == s.registry
  {
    hide ImeiString, IsShort;
  }

  lemma HandleOwner(s: State, b: nat, r: Request, c: nat)
    requires Safe(s) && b in s.conns && Possible(Message(b, r)) && c in s.conns
    requires Safe(Handle(s, b, r)) && c in Handle(s, b, r).conns
    ensures OwnerIn(Handle(s, b, r), c)
      == if OwnerIn(s, c).None? && b == c && r.Login? then Some(r.imei) else OwnerIn(s, c)
  {
    hide Safe, LoginStep, GpsStep, AlarmStep, OperatorStep, ImeiString, OwnerIn, ResponseBytes;
    var t := Handle(s, b, r);
    match r
    case Login(imei, seq0, seq1) => LoginOwners(s, b, imei, seq0, seq1, c);
    case Gps(request, now) =>
      GpsConns(s, b, request, now);
      GpsOwners(s, b, request, now);
      OwnersKept(s, t, c);
    case Alarm(report, kind, seq0, seq1) =>
      AlarmConns(s, b, report, kind, seq0, seq1);
      AlarmOwners(s, b, report, kind, seq0, seq1);
      OwnersKept(s, t, c);
    case _ =>
      OthersKeep(s, b, r);
      OwnersKept(s, t, c);
  }

  lemma OthersKeep(s: State, c: nat, r: Request)
    requires Safe(s) && c in s.conns && !r.Login? && !r.Gps? && !r.Alarm?
    ensures var t := Handle(s, c, r); t.conns == s.conns && t.devices == s.devices && t.registry == s.registry
  {
    hide ResponseBytes, Safe, ImeiString;
  }

  // The registry

  /** The text of an IMEI tells it apart from every other. */
  lemma KeyIs(a: bytes, b: bytes)
    requires |a| == IMEI_LENGTH && |b| == IMEI_LENGTH
    ensures ImeiString(a) == ImeiString(b) <==> a == b
  {
    hide ImeiString;
    if ImeiString(a) == ImeiString(b) {
      ImeiStringInjective(a, b);
    }
  }

  lemma StepKnown(s: State, e: Event, imei: bytes)
    requires Safe(s) && Possible(e) && |imei| == IMEI_LENGTH
    ensures ImeiString(imei) in Step(s, e).registry <==>
      || ImeiString(imei) in s.registry
      || (e.Reload? && s.conns == map[] && Imei(e.key) == imei)
      || (e.Message? && e.request.Login? && e.conn in s.conns && OwnerIn(s, e.conn).None? && e.request.imei == imei)
  {
    hide Safe, LoginStep, GpsStep, AlarmStep, OperatorStep, ReloadStep, AppStep, CloseStep, ImeiString, OwnerIn, Imei;
    match e
    case Close(c) => if c in s.conns { CloseRegistry(s, c); }
    case Message(c, r) => if c in s.conns { HandleKnown(s, c, r, imei); }
    case AppCommand(key, cmd, seqNo, data) => AppKeeps(s, key, cmd, seqNo, data);
    case Reload(key) => if s.conns == map[] { ReloadKnown(s, key, imei); }
    case _ =>
  }

  lemma CloseRegistry(s: State, c: nat)
    requires Safe(s) && c in s.conns
    ensures CloseStep(s, c).registry == s.registry
  {
    hide ImeiString, IsShort;
  }

  lemma ReloadKnown(s: State, key: bytes, imei: bytes)
    requires Safe(s) && |key| >= 2 * IMEI_LENGTH && |imei| == IMEI_LENGTH
    ensures ImeiString(imei) in ReloadStep(s, key).registry <==> ImeiString(imei) in s.registry || Imei(key) == imei
  {
    hide ImeiString, IsShort, Imei;
    KeyIs(Imei(key), imei);
  }

  lemma HandleKnown(s: State, c: nat, r: Request, imei: bytes)
    requires Safe(s) && c in s.conns && Possible(Message(c, r)) && |imei| == IMEI_LENGTH
    ensures ImeiString(imei) in Handle(s, c, r).registry <==>
      ImeiString(imei) in s.registry || (r.Login? && OwnerIn(s, c).None? && r.imei == imei)
  {
    hide Safe, LoginStep, GpsStep, AlarmStep, OperatorStep, ImeiString, OwnerIn, ResponseBytes;
    match r
    case Login(name, seq0, seq1) => LoginKnown(s, c, name, seq0, seq1, imei);
    case Gps(request, now) => GpsRegistry(s, c, request, now);
    case Alarm(report, kind, seq0, seq1) => AlarmRegistry(s, c, report, kind, seq0, seq1);
    case _ => OthersKeep(s, c, r);
  }

  lemma GpsRegistry(s: State, c: nat, r: GpsRequest, now: int)
    requires Safe(s) && c in s.conns
    ensures GpsStep(s, c, r, now).registry == s.registry
  {
  }

  lemma AlarmRegistry(s: State, c: nat, r: GpsRequest, kind: byte, seq0: byte, seq1: byte)
    requires Safe(s) && c in s.conns
    ensures AlarmStep(s, c, r, kind, seq0, seq1).registry == s.registry
  {
  }

  lemma LoginKnown(s: State, c: nat, name: bytes, seq0: byte, seq1: byte, imei: bytes)
    requires Safe(s) && c in s.conns && |name| == IMEI_LENGTH && |imei| == IMEI_LENGTH
    ensures ImeiString(imei) in LoginStep(s, c, name, seq0, seq1).registry <==>
      ImeiString(imei) in s.registry || (OwnerIn(s, c).None? && name == imei)
  {
    hide ImeiString, IsShort, ResponseBytes;
    KeyIs(name, imei);
  }

  // Sessions

  /** The device that a connection is bound to is the one registered under the text of its IMEI. */
  lemma OwnerKey(s: State, c: nat, key: bytes)
    requires Safe(s) && c in s.conns && s.conns[c].Some?
    ensures s.conns[c].value in s.devices && OwnerIn(s, c).Some? && |OwnerIn(s, c).value| == IMEI_LENGTH
    ensures ImeiString(OwnerIn(s, c).value) == key <==> key in s.registry && s.registry[key] == s.conns[c].value
  {
    hide ImeiString, IsShort;
    assert Sound(s, s.conns[c].value);
  }

  lemma DeviceSession(s: State, d: nat, v: Device, key: bytes)
    requires Safe(s) && d in s.devices && Safe(SetDevice(s, d, v))
    ensures SessionIn(SetDevice(s, d, v), key)
      == if key in s.registry && s.registry[key] == d then v.session else SessionIn(s, key)
  {
    hide ImeiString, IsShort;
  }

  lemma SameSession(s: State, t: State, key: bytes)
    requires Safe(s) && Safe(t) && t.devices == s.devices && t.registry == s.registry
    ensures SessionIn(t, key) == SessionIn(s, key)
  {
  }

  /** A login, or a GPS message that is long enough, in terms of the state. */
  ghost predicate HearsIn(s: State, c: nat, r: Request, key: bytes)
    requires Safe(s)
  {
    match r
    case Login(imei, _, _) => ImeiString(if OwnerIn(s, c).Some? then OwnerIn(s, c).value else imei) == key
    case Gps(g, _) => g.length >= 12 && OwnerIn(s, c).Some? && ImeiString(OwnerIn(s, c).value) == key
    case _ => false
  }

  lemma GpsSession(s: State, c: nat, r: GpsRequest, now: int, key: bytes)
    requires Safe(s) && c in s.conns && Safe(GpsStep(s, c, r, now))
    ensures SessionIn(GpsStep(s, c, r, now), key)
      == if HearsIn(s, c, Gps(r, now), key) then Some(c) else SessionIn(s, key)
  {
    hide ImeiString, IsShort, Filter, Safe, SessionIn;
    if s.conns[c].Some? {
      OwnerKey(s, c, key);
      if r.length >= MIN_GPS_LENGTH {
        var d := s.conns[c].value;
        Positions.Bound(s, c);
        FilterKeeps(Touched(s.devices[d], c), r, now);
        var (v, outputs) := Filter(Touched(s.devices[d], c), r, now);
        Positions.SafeGpsDevice(s, c, r, now);
        DeviceSession(s, d, v, key);
        SameSession(SetDevice(s, d, v), GpsStep(s, c, r, now), key);
      }
    }
  }

  lemma AlarmSession(s: State, c: nat, r: GpsRequest, kind: byte, seq0: byte, seq1: byte, key: bytes)
    requires Safe(s) && c in s.conns && Safe(AlarmStep(s, c, r, kind, seq0, seq1))
    ensures SessionIn(AlarmStep(s, c, r, kind, seq0, seq1), key) == SessionIn(s, key)
  {
    hide ImeiString, IsShort, ResponseBytes;
  }

  lemma CloseSession(s: State, c: nat, key: bytes)
    requires Safe(s) && c in s.conns && Safe(CloseStep(s, c))
    ensures SessionIn(CloseStep(s, c), key)
      == if OwnerIn(s, c).Some? && ImeiString(OwnerIn(s, c).value) == key then None else SessionIn(s, key)
  {
    hide ImeiString, IsShort;
    if s.conns[c].Some? {
      OwnerKey(s, c, key);
    }
  }

  lemma ReloadSession(s: State, key: bytes, k: bytes)
    requires Safe(s) && s.conns == map[] && |key| >= 2 * IMEI_LENGTH && Safe(ReloadStep(s, key))
    ensures SessionIn(ReloadStep(s, key), k) == if ImeiString(Imei(key)) == k then None else SessionIn(s, k)
  {
    hide ImeiString, IsShort, Imei;
    if k in s.registry {
      assert Sound(s, s.registry[k]);
    }
  }

  lemma BindSession(s: State, c: nat, imei: bytes, key: bytes)
    requires Safe(s) && c in s.conns && |imei| == IMEI_LENGTH && Safe(Bind(s, c, imei).0)
    ensures SessionIn(Bind(s, c, imei).0, key) == SessionIn(s, key)
  {
    hide ImeiString, IsShort;
  }

  lemma LoginSession(s: State, c: nat, imei: bytes, seq0: byte, seq1: byte, key: bytes)
    requires Safe(s) && c in s.conns && |imei| == IMEI_LENGTH && Safe(LoginStep(s, c, imei, seq0, seq1))
    ensures SessionIn(LoginStep(s, c, imei, seq0, seq1), key)
      == if HearsIn(s, c, Login(imei, seq0, seq1), key) then Some(c) else SessionIn(s, key)
  {
    hide Safe, Bind, OwnerIn, ResponseBytes, SessionIn, ImeiString;
    SafeBind(s, c, imei);
    BindSession(s, c, imei, key);
    BindOwner(s, c, imei, c);
    var (t, d) := Bind(s, c, imei);
    OwnerKey(t, c, key);
    SafeTouched(t, c);
    DeviceSession(t, d, Touched(t.devices[d], c), key);
    SameSession(SetDevice(t, d, Touched(t.devices[d], c)), LoginStep(s, c, imei, seq0, seq1), key);
  }

  lemma SafeTouched(s: State, c: nat)
    requires Safe(s) && c in s.conns && s.conns[c].Some?
    ensures var d := s.conns[c].value; d in s.devices && Safe(SetDevice(s, d, Touched(s.devices[d], c)))
  {
    hide ImeiString, IsShort;
    var d := s.conns[c].value;
    assert Sound(s, d);
    SafeDevice(s, d, Touched(s.devices[d], c));
  }

  lemma HandleSession(s: State, c: nat, r: Request, key: bytes)
    requires Safe(s) && c in s.conns && Possible(Message(c, r)) && Safe(Handle(s, c, r))
    ensures SessionIn(Handle(s, c, r), key) == if HearsIn(s, c, r, key) then Some(c) else SessionIn(s, key)
  {
    hide Safe, LoginStep, GpsStep, AlarmStep, OperatorStep, ImeiString, OwnerIn, SessionIn, ResponseBytes;
    match r
    case Login(imei, seq0, seq1) => LoginSession(s, c, imei, seq0, seq1, key);
    case Gps(request, now) => GpsSession(s, c, request, now, key);
    case Alarm(report, kind, seq0, seq1) => AlarmSession(s, c, report, kind, seq0, seq1, key);
    case _ =>
      OthersKeep(s, c, r);
      SameSession(s, Handle(s, c, r), key);
  }

  lemma StepSession(s: State, e: Event, key: bytes)
    requires Safe(s) && Possible(e) && Safe(Step(s, e))
    ensures SessionIn(Step(s, e), key) ==
      if e.Message? && e.conn in s.conns && HearsIn(s, e.conn, e.request, key) then Some(e.conn)
      else if e.Close? && e.conn in s.conns && OwnerIn(s, e.conn).Some? && ImeiString(OwnerIn(s, e.conn).value) == key
        then None
      else if e.Reload? && s.conns == map[] && ImeiString(Imei(e.key)) == key then None
      else SessionIn(s, key)
  {
    hide Safe, Handle, ReloadStep, AppStep, CloseStep, ImeiString, OwnerIn, Imei, SessionIn, HearsIn;
    match e
    case Accept => SameSession(s, Step(s, e), key);
    case Close(c) => if c in s.conns { CloseSession(s, c, key); }
    case Message(c, r) => if c in s.conns { HandleSession(s, c, r, key); }
    case AppCommand(k, cmd, seqNo, data) =>
      AppKeeps(s, k, cmd, seqNo, data);
      SameSession(s, Step(s, e), key);
    case Reload(k) => if s.conns == map[] { ReloadSession(s, k, key); }
  }

  // Facts

  lemma DeviceFacts(s: State, d: nat, v: Device, key: bytes)
    requires Safe(s) && d in s.devices && Safe(SetDevice(s, d, v))
    ensures FactsIn(SetDevice(s, d, v), key)
      == if key in s.registry && s.registry[key] == d then Facts(v.cell, v.timestamp, v.isGPSlocated)
         else FactsIn(s, key)
  {
    hide ImeiString, IsShort;
  }

  lemma SameFacts(s: State, t: State, key: bytes)
    requires Safe(s) && Safe(t) && t.devices == s.devices && t.registry == s.registry
    ensures FactsIn(t, key) == FactsIn(s, key)
  {
  }

  lemma FilterFacts(v: Device, r: GpsRequest, now: int)
    requires WellFormed(r) && IsShort(v.fix.course) && r.length >= 12
    ensures
      var w := Filter(v, r, now).0;
      Facts(w.cell, w.timestamp, w.isGPSlocated)
      == FactsAfter(Facts(v.cell, v.timestamp, v.isGPSlocated), v.fix, r, now)
  {
  }

  /** What a message does to the facts of the device that its connection belongs to. */
  ghost function FactsIfFrom(s: State, c: nat, r: Request, key: bytes): Facts
    requires Safe(s)
  {
    var facts := FactsIn(s, key);
    if OwnerIn(s, c).None? || ImeiString(OwnerIn(s, c).value) != key then facts
    else if r.Gps? then FactsAfter(facts, Positions.Held(s, OwnerIn(s, c).value), r.request, r.now)
    else if r.Alarm? then Facts(r.report.cell, facts.timestamp, facts.located)
    else facts
  }

  /** The facts of the device that a connection is bound to. */
  lemma OwnFacts(s: State, c: nat, key: bytes)
    requires Safe(s) && c in s.conns && s.conns[c].Some? && key in s.registry && s.registry[key] == s.conns[c].value
    ensures var v := s.devices[s.conns[c].value]; FactsIn(s, key) == Facts(v.cell, v.timestamp, v.isGPSlocated)
  {
    hide ImeiString, IsShort;
  }

  lemma GpsFacts(s: State, c: nat, r: GpsRequest, now: int, key: bytes)
    requires Safe(s) && c in s.conns && WellFormed(r) && Safe(GpsStep(s, c, r, now))
    ensures FactsIn(GpsStep(s, c, r, now), key) == FactsIfFrom(s, c, Gps(r, now), key)
  {
    hide ImeiString, IsShort, Filter, Safe, FactsIn, FactsAfter, OwnerIn, Positions.Held;
    if s.conns[c].Some? {
      OwnerKey(s, c, key);
      OwnerHeld(s, c);
      var d := s.conns[c].value;
      var v := Touched(s.devices[d], c);
      if key in s.registry && s.registry[key] == d {
        OwnFacts(s, c, key);
      }
      ShortRefused(FactsIn(s, key), v.fix, r, now);
      if r.length >= MIN_GPS_LENGTH {
        Positions.Bound(s, c);
        FilterFacts(v, r, now);
        var (w, outputs) := Filter(v, r, now);
        Positions.SafeGpsDevice(s, c, r, now);
        DeviceFacts(s, d, w, key);
        SameFacts(SetDevice(s, d, w), GpsStep(s, c, r, now), key);
      }
    } else {
      NoOwner(s, c);
    }
  }

  lemma NoOwner(s: State, c: nat)
    requires Safe(s) && c in s.conns && s.conns[c].None?
    ensures OwnerIn(s, c).None?
  {
  }

  lemma ShortRefused(facts: Facts, held: Fix, g: GpsRequest, now: int)
    ensures g.length < 12 ==> FactsAfter(facts, held, g, now) == facts
  {
  }

  lemma AlarmFacts(s: State, c: nat, r: GpsRequest, kind: byte, seq0: byte, seq1: byte, key: bytes)
    requires Safe(s) && c in s.conns && Safe(AlarmStep(s, c, r, kind, seq0, seq1))
    ensures FactsIn(AlarmStep(s, c, r, kind, seq0, seq1), key) == FactsIfFrom(s, c, Alarm(r, kind, seq0, seq1), key)
  {
    hide ImeiString, IsShort, ResponseBytes, Safe, FactsIn, OwnerIn;
    if s.conns[c].Some? {
      OwnerKey(s, c, key);
      var d := s.conns[c].value;
      var v := s.devices[d].(fix := FixOf(r), cell := r.cell);
      if key in s.registry && s.registry[key] == d {
        OwnFacts(s, c, key);
      }
      Positions.SafeAlarmDevice(s, c, r);
      DeviceFacts(s, d, v, key);
      SameFacts(SetDevice(s, d, v), AlarmStep(s, c, r, kind, seq0, seq1), key);
    } else {
      NoOwner(s, c);
    }
  }

  lemma CloseFacts(s: State, c: nat, key: bytes)
    requires Safe(s) && c in s.conns && Safe(CloseStep(s, c))
    ensures FactsIn(CloseStep(s, c), key) == FactsIn(s, key)
  {
    hide ImeiString, IsShort;
  }

  lemma ReloadFacts(s: State, key: bytes, k: bytes)
    requires Safe(s) && s.conns == map[] && |key| >= 2 * IMEI_LENGTH && Safe(ReloadStep(s, key))
    ensures FactsIn(ReloadStep(s, key), k) == if ImeiString(Imei(key)) == k then NO_FACTS else FactsIn(s, k)
  {
    hide ImeiString, IsShort, Imei;
    NewFacts();
    if k in s.registry {
      assert Sound(s, s.registry[k]);
    }
  }

  lemma NewFacts()
    ensures NO_FACTS.cell == seq(9, i => 0)
  {
  }

  lemma BindFacts(s: State, c: nat, imei: bytes, key: bytes)
    requires Safe(s) && c in s.conns && |imei| == IMEI_LENGTH && Safe(Bind(s, c, imei).0)
    ensures FactsIn(Bind(s, c, imei).0, key) == FactsIn(s, key)
  {
    hide ImeiString, IsShort;
    NewFacts();
  }

  lemma LoginFacts(s: State, c: nat, imei: bytes, seq0: byte, seq1: byte, key: bytes)
    requires Safe(s) && c in s.conns && |imei| == IMEI_LENGTH && Safe(LoginStep(s, c, imei, seq0, seq1))
    ensures FactsIn(LoginStep(s, c, imei, seq0, seq1), key) == FactsIn(s, key)
  {
    hide Safe, Bind, ResponseBytes, FactsIn, ImeiString;
    SafeBind(s, c, imei);
    BindFacts(s, c, imei, key);
    var (t, d) := Bind(s, c, imei);
    SafeTouched(t, c);
    DeviceFacts(t, d, Touched(t.devices[d], c), key);
    if key in t.registry && t.registry[key] == d {
      OwnFacts(t, c, key);
    }
    SameFacts(SetDevice(t, d, Touched(t.devices[d], c)), LoginStep(s, c, imei, seq0, seq1), key);
  }

  lemma HandleFacts(s: State, c: nat, r: Request, key: bytes)
    requires Safe(s) && c in s.conns && Possible(Message(c, r)) && Safe(Handle(s, c, r))
    ensures FactsIn(Handle(s, c, r), key) == FactsIfFrom(s, c, r, key)
  {
    hide Safe, LoginStep, GpsStep, AlarmStep, OperatorStep, ImeiString, OwnerIn, FactsIn, ResponseBytes, Positions.Held;
    match r
    case Login(imei, seq0, seq1) => LoginFacts(s, c, imei, seq0, seq1, key);
    case Gps(request, now) => GpsFacts(s, c, request, now, key);
    case Alarm(report, kind, seq0, seq1) => AlarmFacts(s, c, report, kind, seq0, seq1, key);
    case _ =>
      OthersKeep(s, c, r);
      SameFacts(s, Handle(s, c, r), key);
  }

  lemma StepFacts(s: State, e: Event, key: bytes)
    requires Safe(s) && Possible(e) && Safe(Step(s, e))
    ensures FactsIn(Step(s, e), key) ==
      if e.Message? && e.conn in s.conns then FactsIfFrom(s, e.conn, e.request, key)
      else if e.Reload? && s.conns == map[] && ImeiString(Imei(e.key)) == key then NO_FACTS
      else FactsIn(s, key)
  {
    hide Safe, Handle, ReloadStep, AppStep, CloseStep, ImeiString, OwnerIn, Imei, FactsIn, FactsIfFrom;
    match e
    case Accept => SameFacts(s, Step(s, e), key);
    case Close(c) => if c in s.conns { CloseFacts(s, c, key); }
    case Message(c, r) => if c in s.conns { HandleFacts(s, c, r, key); }
    case AppCommand(k, cmd, seqNo, data) =>
      AppKeeps(s, k, cmd, seqNo, data);
      SameFacts(s, Step(s, e), key);
    case Reload(k) => if s.conns == map[] { ReloadFacts(s, k, key); }
  }

  // Positions

  lemma FixIs(r: GpsRequest)
    requires WellFormed(r)
    ensures FixOf(r) == PositionIn(r) && (FixOf(r).course < 0 <==> r.course >= 0x8000)
  {
  }

  lemma HeldStep(es: seq<Event>, s: State, e: Event, imei: bytes)
    requires Safe(s) && Agrees(es, s) && Possible(e) && Safe(Step(s, e)) && |imei| == IMEI_LENGTH
    ensures Positions.Held(Step(s, e), imei) == Held(es + [e], imei)
  {
    hide Safe, Step, Positions.Held, Positions.Follows, Positions.From, ImeiString, Imei, Live, Owner, OwnerIn, Agrees;
    hide NoneLive, Held, Positions.After;
    Last(es, e);
    Positions.StepFollows(s, e, imei);
    FollowsHeld(s, Step(s, e), Positions.UpdateOf(s, e, imei), imei);
    HeldNow(es, s, imei);
    HeldLast(es, e, imei);
    match e
    case Message(c, r) =>
      Seen(es, s, c);
      SeenFrom(es, s, e, imei);
      if r.Gps? {
        FixIs(r.request);
      } else if r.Alarm? {
        FixIs(r.report);
      }
    case Reload(key) => Seen(es, s, 0);
    case _ =>
  }

  lemma FollowsHeld(s: State, t: State, us: seq<Positions.Update>, imei: bytes)
    requires Safe(s) && Safe(t) && Positions.Follows(s, t, us, imei) && |us| <= 1
    ensures Positions.Held(t, imei)
      == if us == [] then Positions.Held(s, imei) else Positions.FixAfter(Positions.Held(s, imei), us[0])
  {
    hide Safe, Positions.Held;
    if us != [] {
      assert us == [us[0]];
      Positions.LastUpdate(Positions.Held(s, imei), us[0]);
    }
  }

  lemma HeldNow(es: seq<Event>, s: State, imei: bytes)
    requires Safe(s) && Agrees(es, s) && |imei| == IMEI_LENGTH
    ensures Positions.Held(s, imei) == Held(es, imei)
  {
    hide Safe, Positions.Held, Held, Live, Owner, OwnerIn, Known, ImeiString;
  }

  lemma HeldLast(es: seq<Event>, e: Event, imei: bytes)
    ensures Held(es + [e], imei)
      == if Reloads(es, e, imei) then Fix(0, 0, 0, 0)
         else if From(es, e, imei) && e.request.Alarm? then PositionIn(e.request.report)
         else if From(es, e, imei) && e.request.Gps? && Used(e.request.request, Held(es, imei)) then
           PositionIn(e.request.request)
         else Held(es, imei)
  {
    hide Reloads, From, PositionIn, Used;
    Last(es, e);
  }

  lemma SeenFrom(es: seq<Event>, s: State, e: Event, imei: bytes)
    requires Safe(s) && Agrees(es, s) && e.Message?
    ensures From(es, e, imei) <==> Positions.From(s, e.conn, imei)
  {
    hide Safe, Live, Owner, Agrees;
    Seen(es, s, e.conn);
  }

  // What each event makes the state

  lemma OwnerStep(es: seq<Event>, s: State, e: Event, c: nat)
    requires Safe(s) && Agrees(es, s) && Possible(e) && Safe(Step(s, e))
    ensures c in Step(s, e).conns ==> OwnerIn(Step(s, e), c) == Owner(es + [e], c)
    ensures c >= Count(es + [e]) ==> Owner(es + [e], c).None?
  {
    hide Safe, Step, OwnerIn;
    Last(es, e);
    StepConns(s, e);
    Seen(es, s, c);
    if c >= Count(es) {
      Unborn(es, s, c);
    }
    if c in Step(s, e).conns {
      if c in s.conns {
        StepOwner(s, e, c);
      } else {
        AcceptedOwner(s, e);
      }
    }
  }

  lemma Unborn(es: seq<Event>, s: State, c: nat)
    requires Safe(s) && Agrees(es, s) && c >= Count(es)
    ensures c == s.nextConn || c > s.nextConn
    ensures Owner(es, c).None? && !Live(es, c)
  {
    hide Owner, OwnerIn, ImeiString, SessionIn, Heard, Known, Held, Positions.Held, Live;
  }

  lemma AcceptedOwner(s: State, e: Event)
    requires Safe(s) && e.Accept? && Safe(Step(s, e))
    ensures OwnerIn(Step(s, e), s.nextConn).None?
  {
    hide ImeiString, IsShort;
  }

  lemma KnownStep(es: seq<Event>, s: State, e: Event, imei: bytes)
    requires Safe(s) && Agrees(es, s) && Possible(e) && Safe(Step(s, e)) && |imei| == IMEI_LENGTH
    ensures ImeiString(imei) in Step(s, e).registry <==> Known(es + [e], imei)
  {
    hide Safe, Step, OwnerIn, ImeiString, Imei, Live, Owner, NoneLive, Agrees, Known;
    Last(es, e);
    KnownNow(es, s, imei);
    KnownLast(es, e, imei);
    StepKnown(s, e, imei);
    Seen(es, s, if e.Message? then e.conn else 0);
  }

  lemma KnownNow(es: seq<Event>, s: State, imei: bytes)
    requires Safe(s) && Agrees(es, s) && |imei| == IMEI_LENGTH
    ensures ImeiString(imei) in s.registry <==> Known(es, imei)
  {
    hide Safe, Positions.Held, Held, Live, Owner, OwnerIn, Known, ImeiString;
  }

  lemma KnownLast(es: seq<Event>, e: Event, imei: bytes)
    ensures Known(es + [e], imei) <==>
      || Known(es, imei) || Reloads(es, e, imei)
      || (e.Message? && LogsIn(es, e, e.conn) && Owner(es, e.conn).None? && e.request.imei == imei)
  {
    hide Reloads, LogsIn, Owner;
    Last(es, e);
  }

  lemma SessionStep(es: seq<Event>, s: State, e: Event, key: bytes)
    requires Safe(s) && Agrees(es, s) && Possible(e) && Safe(Step(s, e))
    ensures SessionIn(Step(s, e), key) == Heard(es + [e], key)
  {
    hide Safe, Step, OwnerIn, ImeiString, Imei, Live, Owner, NoneLive, Agrees, SessionIn, Heard;
    Last(es, e);
    HeardNow(es, s, key);
    HeardLast(es, e, key);
    StepSession(s, e, key);
    Seen(es, s, if e.Message? || e.Close? then e.conn else 0);
  }

  lemma HeardNow(es: seq<Event>, s: State, key: bytes)
    requires Safe(s) && Agrees(es, s)
    ensures SessionIn(s, key) == Heard(es, key)
  {
    hide Safe, Positions.Held, Held, Live, Owner, OwnerIn, Known, ImeiString, SessionIn, Heard;
  }

  lemma HeardLast(es: seq<Event>, e: Event, key: bytes)
    ensures Heard(es + [e], key)
      == if Hears(es, e, key) then Some(e.conn) else if Loses(es, e, key) then None else Heard(es, key)
  {
    hide Hears, Loses;
    Last(es, e);
  }

  lemma FactsStep(es: seq<Event>, s: State, e: Event, key: bytes)
    requires Safe(s) && Agrees(es, s) && Possible(e) && Safe(Step(s, e))
    ensures FactsIn(Step(s, e), key) == FactsOf(es + [e], key)
  {
    hide Safe, Step, OwnerIn, ImeiString, Imei, Live, Owner, NoneLive, Agrees, FactsIn, FactsOf, FactsAfter;
    hide Held, Positions.Held;
    Last(es, e);
    FactsNow(es, s, key);
    FactsLast(es, e, key);
    StepFacts(s, e, key);
    Seen(es, s, if e.Message? then e.conn else 0);
    if e.Message? && e.conn in s.conns && OwnerIn(s, e.conn).Some? {
      OwnerLength(s, e.conn);
      HeldNow(es, s, OwnerIn(s, e.conn).value);
    }
  }

  lemma OwnerLength(s: State, c: nat)
    requires Safe(s) && c in s.conns && OwnerIn(s, c).Some?
    ensures |OwnerIn(s, c).value| == IMEI_LENGTH
  {
    hide ImeiString, IsShort;
    assert Sound(s, s.conns[c].value);
  }

  lemma FactsNow(es: seq<Event>, s: State, key: bytes)
    requires Safe(s) && Agrees(es, s)
    ensures FactsIn(s, key) == FactsOf(es, key)
  {
    hide Safe, Positions.Held, Held, Live, Owner, OwnerIn, Known, ImeiString, SessionIn, Heard, FactsIn, FactsOf;
  }

  lemma FactsLast(es: seq<Event>, e: Event, key: bytes)
    ensures
      var facts := FactsOf(es, key);
      FactsOf(es + [e], key)
      == if e.Reload? && |e.key| >= 2 * IMEI_LENGTH && NoneLive(es) && ImeiString(Imei(e.key)) == key then NO_FACTS
         else if FromKey(es, e, key) && e.request.Gps? then
           FactsAfter(facts, Held(es, Owner(es, e.conn).value), e.request.request, e.request.now)
         else if FromKey(es, e, key) && e.request.Alarm? then
           Facts(e.request.report.cell, facts.timestamp, facts.located)
         else facts
  {
    hide FromKey, FactsAfter, NoneLive, Owner, Held, ImeiString, Imei;
    Last(es, e);
  }

  lemma AgreesStep(es: seq<Event>, s: State, e: Event)
    requires Safe(s) && Agrees(es, s) && Possible(e) && Safe(Step(s, e))
    ensures Agrees(es + [e], Step(s, e))
  {
    hide Safe, Step, OwnerIn, ImeiString, Owner, SessionIn, Heard, Known, Held, Positions.Held, FactsIn, FactsOf;
    Last(es, e);
    var all, t := es + [e], Step(s, e);
    StepConns(s, e);
    forall c: nat
      ensures c in t.conns ==> OwnerIn(t, c) == Owner(all, c)
      ensures c >= Count(all) ==> Owner(all, c).None?
    {
      OwnerStep(es, s, e, c);
    }
    forall imei: bytes | |imei| == IMEI_LENGTH
      ensures ImeiString(imei) in t.registry <==> Known(all, imei)
      ensures Positions.Held(t, imei) == Held(all, imei)
    {
      KnownStep(es, s, e, imei);
      HeldStep(es, s, e, imei);
    }
    forall key: bytes
      ensures SessionIn(t, key) == Heard(all, key) && FactsIn(t, key) == FactsOf(all, key)
    {
      SessionStep(es, s, e, key);
      FactsStep(es, s, e, key);
    }
  }

  // What each event sends

  lemma FilterSays(v: Device, r: GpsRequest, now: int)
    requires WellFormed(r) && IsShort(v.fix.course)
    ensures Filter(v, r, now).1 ==
      if !(r.location % 2 == 1 || v.fix.lon == 0) then []
      else
        [PushGps(v.imei, PositionIn(r), r.timestamp, r.location % 2 == 1)]
        + if v.fix != PositionIn(r) || r.course >= 0x8000 then [SaveGps(v.imei, PositionIn(r))] else []
  {
  }

  lemma GpsSays(es: seq<Event>, s: State, c: nat, r: GpsRequest, now: int)
    requires Safe(s) && Agrees(es, s) && c in s.conns && WellFormed(r)
    ensures GpsStep(s, c, r, now).log == s.log + Replies(es, c, Gps(r, now))
  {
    hide Safe, Agrees, Filter, Owner, Live, Held, PositionIn, ImeiString, IsShort;
    Seen(es, s, c);
    if s.conns[c].Some? {
      Positions.Bound(s, c);
      var d := s.conns[c].value;
      var v := s.devices[d];
      OwnerHeld(s, c);
      HeldNow(es, s, v.imei);
      FilterSays(Touched(v, c), r, now);
    }
  }

  lemma OwnerHeld(s: State, c: nat)
    requires Safe(s) && c in s.conns && s.conns[c].Some?
    ensures var v := s.devices[s.conns[c].value];
      |v.imei| == IMEI_LENGTH && OwnerIn(s, c) == Some(v.imei) && Positions.Held(s, v.imei) == v.fix
  {
    hide ImeiString, IsShort;
    assert Sound(s, s.conns[c].value);
  }

  lemma LoginSays(es: seq<Event>, s: State, c: nat, imei: bytes, seq0: byte, seq1: byte)
    requires Safe(s) && Agrees(es, s) && c in s.conns && |imei| == IMEI_LENGTH
    ensures LoginStep(s, c, imei, seq0, seq1).log == s.log + Replies(es, c, Login(imei, seq0, seq1))
  {
    hide Agrees, Owner, Live, Known, ImeiString, IsShort;
    Seen(es, s, c);
    KnownNow(es, s, imei);
    if s.conns[c].None? && ImeiString(imei) in s.registry {
      Positions.OwnDevice(s, s.registry[ImeiString(imei)], imei);
    }
  }

  lemma AlarmSays(es: seq<Event>, s: State, c: nat, r: GpsRequest, kind: byte, seq0: byte, seq1: byte)
    requires Safe(s) && Agrees(es, s) && c in s.conns
    ensures AlarmStep(s, c, r, kind, seq0, seq1).log == s.log + Replies(es, c, Alarm(r, kind, seq0, seq1))
  {
    hide Agrees, Owner, Live, ImeiString, IsShort;
    Seen(es, s, c);
  }

  lemma TokenHalvesAre(token: int)
    ensures TokenCmd(token) == Half(token / 0x1_0000) && TokenSeq(token) == Half(token)
  {
    var n := token / 0x1_0000;
    assert token == n * 0x1_0000 + token % 0x1_0000;
    assert n == n / 0x1_0000 * 0x1_0000 + n % 0x1_0000;
    assert token % 0x1_0000_0000 == n % 0x1_0000 * 0x1_0000 + token % 0x1_0000;
  }

  lemma HandleSays(es: seq<Event>, s: State, c: nat, r: Request)
    requires Safe(s) && Agrees(es, s) && c in s.conns && Possible(Message(c, r))
    ensures Handle(s, c, r).log == s.log + Replies(es, c, r)
  {
    hide Safe, LoginStep, GpsStep, AlarmStep, Agrees, Owner, Live, TokenCmd, TokenSeq, Half;
    Seen(es, s, c);
    match r
    case Login(imei, seq0, seq1) => LoginSays(es, s, c, imei, seq0, seq1);
    case Gps(request, now) => GpsSays(es, s, c, request, now);
    case Alarm(report, kind, seq0, seq1) => AlarmSays(es, s, c, report, kind, seq0, seq1);
    case Operator(kind, token, data) =>
      OperatorSays(s, c, kind, token, data);
      TokenHalvesAre(token);
    case _ =>
  }

  lemma OperatorSays(s: State, c: nat, kind: byte, token: int, data: bytes)
    requires Safe(s) && c in s.conns
    ensures OperatorStep(s, c, kind, token, data).log
      == s.log + if OwnerIn(s, c).None? || kind != 1 then []
                 else [PushResponse(OwnerIn(s, c).value, TokenCmd(token), TokenSeq(token), data)]
  {
    hide ImeiString, IsShort, TokenCmd, TokenSeq;
  }

  lemma AppSays(s: State, key: bytes, cmd: int, seqNo: int, data: bytes)
    requires Safe(s)
    ensures AppStep(s, key, cmd, seqNo, data).log
      == s.log + if SessionIn(s, key).None? then [] else [Command(SessionIn(s, key).value, Token(cmd, seqNo), data)]
  {
    hide ImeiString, IsShort, Token;
    if key in s.registry {
      assert Sound(s, s.registry[key]);
    }
  }

  lemma StepSays(es: seq<Event>, s: State, e: Event)
    requires Safe(s) && Agrees(es, s) && Possible(e)
    ensures Step(s, e).log == s.log + Sent(es, e)
  {
    hide Safe, Handle, AppStep, CloseStep, Agrees, Owner, Live, Heard, SessionIn, Replies, NoneLive, Token, Imei;
    match e
    case Accept =>
    case Close(c) =>
      if c in s.conns {
        SafeClose(s, c);
        Positions.CloseHeld(s, c, []);
      }
    case Message(c, r) =>
      Seen(es, s, c);
      if c in s.conns {
        HandleSays(es, s, c, r);
      }
    case AppCommand(key, cmd, seqNo, data) =>
      AppSays(s, key, cmd, seqNo, data);
      HeardNow(es, s, key);
    case Reload(key) => Seen(es, s, 0);
  }

  // Runs

  /** Over every run: the server sends what the events call for, all of it, in order, and nothing else. */
  lemma {:induction false} LogOfRun(es: seq<Event>)
    requires AllPossible(es)
    ensures Run(es).log == SentAll(es) && Agrees(es, Run(es))
    decreases |es|
  {
    hide Step, Sent, Agrees, Safe;
    if es == [] {
      Nothing();
    } else {
      var n := |es| - 1;
      var before, e := es[..n], es[n];
      LogOfRun(before);
      SafeStep(Run(before), e);
      StepSays(before, Run(before), e);
      AgreesStep(before, Run(before), e);
      assert before + [e] == es;
    }
  }

  lemma Nothing()
    ensures Safe(INITIAL) && Agrees([], INITIAL)
  {
  }

  // Answers

  /** What is written to one connection. */
  function WrittenTo(outputs: seq<Output>, c: nat): seq<bytes> {
    if outputs == [] then []
    else (if outputs[0].Write? && outputs[0].conn == c then [outputs[0].frame] else []) + WrittenTo(outputs[1..], c)
  }

  /** The answer that a message calls for; alarms and status messages have none before the login. */
  function AnswerTo(loggedIn: bool, r: Request): seq<bytes> {
    match r
    case Login(_, seq0, seq1) => [Answer(1, 2, seq0, seq1)]
    case Ping(seq0, seq1) => [Answer(3, 2, seq0, seq1)]
    case Alarm(_, _, seq0, seq1) => if loggedIn then [Answer(4, 2, seq0, seq1)] else []
    case Status(seq0, seq1) => if loggedIn then [Answer(5, 2, seq0, seq1)] else []
    case Sms(seq0, seq1) => [Answer(6, 23, seq0, seq1)]
    case _ => []
  }

  function AnswersOn(es: seq<Event>, c: nat): seq<bytes> {
    if es == [] then []
    else
      var before, e := es[..|es| - 1], es[|es| - 1];
      AnswersOn(before, c)
      + if e.Message? && e.conn == c && Live(before, c) then AnswerTo(Owner(before, c).Some?, e.request) else []
  }

  lemma {:induction false} WrittenAppend(a: seq<Output>, b: seq<Output>, c: nat)
    ensures WrittenTo(a + b, c) == WrittenTo(a, c) + WrittenTo(b, c)
    decreases |a|
  {
    if a == [] {
      assert a + b == b;
    } else {
      assert (a + b)[0] == a[0] && (a + b)[1..] == a[1..] + b;
      WrittenAppend(a[1..], b, c);
    }
  }

  /** At most two outputs, the second of which writes nothing. */
  lemma FewWritten(outputs: seq<Output>, c: nat)
    requires |outputs| <= 2 && (|outputs| == 2 ==> !outputs[1].Write?)
    ensures WrittenTo(outputs, c)
      == if outputs != [] && outputs[0].Write? && outputs[0].conn == c then [outputs[0].frame] else []
  {
    if outputs != [] {
      assert |outputs[1..]| <= 1 && (outputs[1..] != [] ==> outputs[1..][0] == outputs[1]);
      assert WrittenTo(outputs[1..], c) == [];
    }
  }

  lemma RepliesWritten(es: seq<Event>, b: nat, r: Request, c: nat)
    ensures WrittenTo(Replies(es, b, r), c) == if b == c then AnswerTo(Owner(es, b).Some?, r) else []
  {
    hide Owner, Known, Held, Used, PositionIn, Answer, Half, WrittenTo, LoginOwner;
    var outputs := Replies(es, b, r);
    if r.Login? {
      var answer := [Write(b, Answer(1, 2, r.seq0, r.seq1)), Subscribe(LoginOwner(es, b, r.imei))];
      var did := if Owner(es, b).None? && !Known(es, r.imei) then [SaveDid(r.imei)] else [];
      assert outputs == did + answer;
      WrittenAppend(did, answer, c);
      FewWritten(did, c);
      FewWritten(answer, c);
    } else {
      FewWritten(outputs, c);
    }
  }

  lemma SentWritten(es: seq<Event>, e: Event, c: nat)
    ensures WrittenTo(Sent(es, e), c)
      == if e.Message? && e.conn == c && Live(es, c) then AnswerTo(Owner(es, c).Some?, e.request) else []
  {
    hide Owner, Live, Replies, WrittenTo, AnswerTo, Heard, NoneLive, Imei, Token;
    FewWritten([], c);
    match e
    case Message(b, r) => RepliesWritten(es, b, r, c);
    case _ => FewWritten(Sent(es, e), c);
  }

  /** Over every run: what is written to a connection are the answers to its messages, in order and once each. */
  lemma {:induction false} AnswersOverRuns(es: seq<Event>, c: nat)
    requires AllPossible(es)
    ensures WrittenTo(Run(es).log, c) == AnswersOn(es, c)
    decreases |es|
  {
    hide Step, Sent, AnswerTo, WrittenTo, Live, Owner, Run, SentAll;
    LogOfRun(es);
    SentLast(es);
    if es == [] {
      FewWritten([], c);
    } else {
      var n := |es| - 1;
      AnswersOverRuns(es[..n], c);
      LogOfRun(es[..n]);
      WrittenAppend(SentAll(es[..n]), Sent(es[..n], es[n]), c);
      SentWritten(es[..n], es[n], c);
    }
  }

  lemma SentLast(es: seq<Event>)
    ensures SentAll(es) == if es == [] then [] else SentAll(es[..|es| - 1]) + Sent(es[..|es| - 1], es[|es| - 1])
  {
  }

  // New devices

  function Dids(outputs: seq<Output>, imei: bytes): nat {
    if outputs == [] then 0 else (if outputs[0] == SaveDid(imei) then 1 else 0) + Dids(outputs[1..], imei)
  }

  /** The event is the first login of an IMEI that was not known. */
  ghost predicate Registers(es: seq<Event>, e: Event, imei: bytes) {
    && e.Message? && LogsIn(es, e, e.conn) && Owner(es, e.conn).None? && e.request.imei == imei && !Known(es, imei)
  }

  lemma {:induction false} DidsAppend(a: seq<Output>, b: seq<Output>, imei: bytes)
    ensures Dids(a + b, imei) == Dids(a, imei) + Dids(b, imei)
    decreases |a|
  {
    if a == [] {
      assert a + b == b;
    } else {
      assert (a + b)[0] == a[0] && (a + b)[1..] == a[1..] + b;
      DidsAppend(a[1..], b, imei);
    }
  }

  lemma {:induction false} NoDids(outputs: seq<Output>, imei: bytes)
    requires SaveDid(imei) !in outputs
    ensures Dids(outputs, imei) == 0
    decreases |outputs|
  {
    if outputs != [] {
      NoDids(outputs[1..], imei);
    }
  }

  lemma SentDids(es: seq<Event>, e: Event, imei: bytes)
    ensures Dids(Sent(es, e), imei) == if Registers(es, e, imei) then 1 else 0
  {
    hide Owner, Live, Known, Held, Used, PositionIn, Answer, Half, Heard, NoneLive, Imei, Token, LoginOwner, Dids;
    if Registers(es, e, imei) {
      var outputs := Sent(es, e);
      assert outputs == [SaveDid(imei)] + outputs[1..];
      DidsAppend([SaveDid(imei)], outputs[1..], imei);
      OneDid(imei);
      NoDids(outputs[1..], imei);
    } else {
      NoDids(Sent(es, e), imei);
    }
  }

  lemma OneDid(imei: bytes)
    ensures Dids([SaveDid(imei)], imei) == 1
  {
    NoDids([], imei);
  }

  /** Over every run: an IMEI is saved at most once, and only by the login that makes it known. */
  lemma {:induction false} SavedOnce(es: seq<Event>, imei: bytes)
    requires AllPossible(es)
    ensures Dids(Run(es).log, imei) <= if Known(es, imei) then 1 else 0
    ensures forall i :: 0 <= i < |es| && Registers(es[..i], es[i], imei) ==> Dids(Run(es).log, imei) == 1
    decreases |es|
  {
    hide Step, Sent, Dids, Live, Owner, Run, SentAll, Known, Registers;
    LogOfRun(es);
    SentLast(es);
    if es == [] {
      NoDids([], imei);
    } else {
      var n := |es| - 1;
      SavedOnce(es[..n], imei);
      LogOfRun(es[..n]);
      DidsAppend(SentAll(es[..n]), Sent(es[..n], es[n]), imei);
      SentDids(es[..n], es[n], imei);
      RegistersKnown(es, imei);
      forall i | 0 <= i < n && Registers(es[..i], es[i], imei)
        ensures Dids(Run(es[..n]).log, imei) == 1
      {
        assert es[..n][..i] == es[..i] && es[..n][i] == es[i];
      }
    }
  }

  lemma RegistersKnown(es: seq<Event>, imei: bytes)
    requires es != []
    ensures var n := |es| - 1;
      && (Known(es[..n], imei) ==> Known(es, imei) && !Registers(es[..n], es[n], imei))
      && (Registers(es[..n], es[n], imei) ==> Known(es, imei))
  {
    hide Reloads, LogsIn, Owner;
  }
}
