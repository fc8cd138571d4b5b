/**
 * Which reported positions are pushed and saved over a run of the whole protocol, where alarms set the position, too.
 */
module Positions {
  import opened Bytes
  import opened Codecs
  import opened Frames
  import opened Devices
  import opened Session
  import opened Runs

  const ORIGIN: Fix := Fix(0, 0, 0, 0)

  /** The position that is held for an IMEI; a device that is not there yet will start at the origin. */
  ghost function Held(s: State, imei: bytes): Fix
    requires Safe(s)
  {
    if ImeiString(imei) in s.registry then s.devices[s.registry[ImeiString(imei)]].fix else ORIGIN
  }

  /** What happens to the position of a device: an accepted report, an alarm, and being rebuilt at start-up. */
  datatype Update = Reported(fix: Fix) | Alarmed(fix: Fix) | Rebuilt

  /** The message comes in on a connection that is bound to the device of this IMEI. */
  ghost predicate From(s: State, c: nat, imei: bytes)
    requires Safe(s)
  {
    c in s.conns && s.conns[c].Some? && s.devices[s.conns[c].value].imei == imei
  }

  /** What one event does to the position, if anything. */
  ghost function UpdateOf(s: State, e: Event, imei: bytes): (us: seq<Update>)
    requires Safe(s) && Possible(e)
    ensures |us| <= 1
  {
    match e
    case Message(c, Gps(r, _)) =>
      if From(s, c, imei) && r.length >= MIN_GPS_LENGTH && (IsLocated(r) || Held(s, imei).lon == 0) then
        [Reported(FixOf(r))]
      else []
    case Message(c, Alarm(r, _, _, _)) => if From(s, c, imei) then [Alarmed(FixOf(r))] else []
    case Reload(key) => if s.conns == map[] && Imei(key) == imei then [Rebuilt] else []
    case _ => []
  }

  ghost function Updates(es: seq<Event>, imei: bytes): seq<Update>
    requires AllPossible(es)
  {
    if es == [] then []
    else Updates(es[..|es| - 1], imei) + UpdateOf(Run(es[..|es| - 1]), es[|es| - 1], imei)
  }

  function FixAfter(held: Fix, u: Update): Fix {
    if u.Rebuilt? then ORIGIN else u.fix
  }

  function After(held: Fix, us: seq<Update>): Fix
    decreases |us|
  {
    if us == [] then held else After(FixAfter(held, us[0]), us[1..])
  }

  /** A report, and whether it is saved. */
  datatype Mark = Mark(fix: Fix, saved: bool)

  /**
   * The rule of the code: a report is saved unless it repeats the position that is held and its course fits a short.
   */
  function Marks(held: Fix, us: seq<Update>): seq<Mark>
    decreases |us|
  {
    if us == [] then []
    else
      (if us[0].Reported? then [Mark(us[0].fix, us[0].fix != held || us[0].fix.course < 0)] else [])
      + Marks(FixAfter(held, us[0]), us[1..])
  }

  /** The rule that is meant: a report is saved unless it repeats the report before it. */
  function MeantMarks(previous: Fix, us: seq<Update>): seq<Mark>
    decreases |us|
  {
    if us == [] then []
    else
      (if us[0].Reported? then [Mark(us[0].fix, us[0].fix != previous)] else [])
      + MeantMarks(if us[0].Alarmed? then previous else FixAfter(previous, us[0]), us[1..])
  }

  function Fixes(ms: seq<Mark>): seq<Fix> {
    if ms == [] then [] else [ms[0].fix] + Fixes(ms[1..])
  }

  function SavedFixes(ms: seq<Mark>): seq<Fix> {
    if ms == [] then [] else (if ms[0].saved then [ms[0].fix] else []) + SavedFixes(ms[1..])
  }

  /** Reports that are not saved because an alarm has set their position before. */
  function Masked(held: Fix, previous: Fix, us: seq<Update>): nat
    decreases |us|
  {
    if us == [] then 0
    else
      (if us[0].Reported? && us[0].fix == held && us[0].fix.course >= 0 && us[0].fix != previous then 1 else 0)
      + Masked(FixAfter(held, us[0]), if us[0].Alarmed? then previous else FixAfter(previous, us[0]), us[1..])
  }

  /** Repeated reports that are saved again, for their course or because an alarm came in between. */
  function SavedAgain(held: Fix, previous: Fix, us: seq<Update>): nat
    decreases |us|
  {
    if us == [] then 0
    else
      (if us[0].Reported? && us[0].fix == previous && (us[0].fix != held || us[0].fix.course < 0) then 1 else 0)
      + SavedAgain(FixAfter(held, us[0]), if us[0].Alarmed? then previous else FixAfter(previous, us[0]), us[1..])
  }

  /**
   * The rules agree on every report exactly when none is masked and none is saved again; in any case the numbers add
   * up.
   */
  lemma {:induction false} RulesAgree(held: Fix, previous: Fix, us: seq<Update>)
    ensures
      var slips := Masked(held, previous, us) + SavedAgain(held, previous, us);
      Marks(held, us) == MeantMarks(previous, us) <==> slips == 0
    ensures |SavedFixes(Marks(held, us))| + Masked(held, previous, us)
      == |SavedFixes(MeantMarks(previous, us))| + SavedAgain(held, previous, us)
    decreases |us|
  {
    if us != [] {
      var u := us[0];
      var h, p := FixAfter(held, u), if u.Alarmed? then previous else FixAfter(previous, u);
      RulesAgree(h, p, us[1..]);
      if u.Reported? {
        var a, b := Mark(u.fix, u.fix != held || u.fix.course < 0), Mark(u.fix, u.fix != previous);
        SameHead(a, b, Marks(h, us[1..]), MeantMarks(p, us[1..]));
        SavedHead(a, Marks(h, us[1..]));
        SavedHead(b, MeantMarks(p, us[1..]));
      } else {
        assert [] + Marks(h, us[1..]) == Marks(h, us[1..]) && [] + MeantMarks(p, us[1..]) == MeantMarks(p, us[1..]);
      }
    }
  }

  lemma SameHead(a: Mark, b: Mark, ms: seq<Mark>, ns: seq<Mark>)
    ensures [a] + ms == [b] + ns <==> a == b && ms == ns
  {
    if [a] + ms == [b] + ns {
      assert a == ([a] + ms)[0] == b && ms == ([a] + ms)[1..] == ns;
    }
  }

  lemma SavedHead(m: Mark, ms: seq<Mark>)
    ensures SavedFixes([m] + ms) == (if m.saved then [m.fix] else []) + SavedFixes(ms)
    ensures Fixes([m] + ms) == [m.fix] + Fixes(ms)
  {
    assert ([m] + ms)[1..] == ms;
  }

  lemma {:induction false} MarksAppend(held: Fix, us: seq<Update>, u: Update)
    ensures After(held, us + [u]) == FixAfter(After(held, us), u)
    ensures Marks(held, us + [u]) == Marks(held, us) + Marks(After(held, us), [u])
    decreases |us|
  {
    var all := us + [u];
    if us == [] {
      assert all == [u];
    } else {
      assert all[0] == us[0] && all[1..] == us[1..] + [u];
      MarksAppend(FixAfter(held, us[0]), us[1..], u);
    }
  }

  lemma {:induction false} MarkedAppend(a: seq<Mark>, b: seq<Mark>)
    ensures SavedFixes(a + b) == SavedFixes(a) + SavedFixes(b) && Fixes(a + b) == Fixes(a) + Fixes(b)
    decreases |a|
  {
    hide SavedFixes, Fixes;
    if a == [] {
      NoMarks();
      assert a + b == b;
    } else {
      assert a == [a[0]] + a[1..] && a + b == [a[0]] + (a[1..] + b);
      SavedHead(a[0], a[1..]);
      SavedHead(a[0], a[1..] + b);
      MarkedAppend(a[1..], b);
    }
  }

  lemma NoMarks()
    ensures SavedFixes([]) == [] && Fixes([]) == []
  {
  }

  // The log of a run

  function SavedFor(outputs: seq<Output>, imei: bytes): seq<Fix> {
    if outputs == [] then []
    else
      (if outputs[0].SaveGps? && outputs[0].imei == imei then [outputs[0].fix] else []) + SavedFor(outputs[1..], imei)
  }

  function PushedFor(outputs: seq<Output>, imei: bytes): seq<Fix> {
    if outputs == [] then []
    else
      (if outputs[0].PushGps? && outputs[0].imei == imei then [outputs[0].fix] else []) + PushedFor(outputs[1..], imei)
  }

  lemma {:induction false} LogAppend(a: seq<Output>, b: seq<Output>, imei: bytes)
    ensures SavedFor(a + b, imei) == SavedFor(a, imei) + SavedFor(b, imei)
    ensures PushedFor(a + b, imei) == PushedFor(a, imei) + PushedFor(b, imei)
    decreases |a|
  {
    hide SavedFor, PushedFor;
    if a == [] {
      NoLog(imei);
      assert a + b == b;
    } else {
      assert a == [a[0]] + a[1..] && a + b == [a[0]] + (a[1..] + b);
      LogHead(a[0], a[1..], imei);
      LogHead(a[0], a[1..] + b, imei);
      LogAppend(a[1..], b, imei);
    }
  }

  lemma NoLog(imei: bytes)
    ensures SavedFor([], imei) == [] && PushedFor([], imei) == []
  {
  }

  lemma LogHead(o: Output, outputs: seq<Output>, imei: bytes)
    ensures SavedFor([o] + outputs, imei)
      == (if o.SaveGps? && o.imei == imei then [o.fix] else []) + SavedFor(outputs, imei)
    ensures PushedFor([o] + outputs, imei)
      == (if o.PushGps? && o.imei == imei then [o.fix] else []) + PushedFor(outputs, imei)
  {
    assert ([o] + outputs)[1..] == outputs;
  }

  /** Outputs about the position of one device. */
  lemma {:induction false} OneDevice(outputs: seq<Output>, owner: bytes, imei: bytes)
    requires forall o :: o in outputs && (o.SaveGps? || o.PushGps?) ==> o.imei == owner
    ensures SavedFor(outputs, imei) == if imei == owner then Saves(outputs) else []
    ensures PushedFor(outputs, imei) == if imei == owner then Pushes(outputs) else []
    decreases |outputs|
  {
    if outputs != [] {
      OneDevice(outputs[1..], owner, imei);
    }
  }

  lemma {:induction false} NoPositions(outputs: seq<Output>, imei: bytes)
    requires forall o :: o in outputs ==> !o.SaveGps? && !o.PushGps?
    ensures SavedFor(outputs, imei) == [] && PushedFor(outputs, imei) == []
    decreases |outputs|
  {
    if outputs != [] {
      NoPositions(outputs[1..], imei);
    }
  }

  /** What a step does to the position and to the log, as far as one IMEI is concerned. */
  ghost predicate Follows(s: State, t: State, us: seq<Update>, imei: bytes)
    requires Safe(s) && Safe(t)
  {
    && Held(t, imei) == After(Held(s, imei), us)
    && SavedFor(t.log, imei) == SavedFor(s.log, imei) + SavedFixes(Marks(Held(s, imei), us))
    && PushedFor(t.log, imei) == PushedFor(s.log, imei) + Fixes(Marks(Held(s, imei), us))
  }

  /** A step that leaves the positions alone. */
  lemma Silent(s: State, t: State, outputs: seq<Output>, imei: bytes)
    requires Safe(s) && Safe(t) && t.log == s.log + outputs && Held(t, imei) == Held(s, imei)
    requires forall o :: o in outputs ==> !o.SaveGps? && !o.PushGps?
    ensures Follows(s, t, [], imei)
  {
    hide Safe, Held;
    LogAppend(s.log, outputs, imei);
    NoPositions(outputs, imei);
  }

  /** Distinct IMEIs have distinct devices. */
  lemma OwnDevice(s: State, d: nat, imei: bytes)
    requires Safe(s) && d in s.devices && |imei| == IMEI_LENGTH
    ensures s.devices[d].imei == imei ==> ImeiString(imei) in s.registry && s.registry[ImeiString(imei)] == d
    ensures s.devices[d].imei != imei ==> !(ImeiString(imei) in s.registry && s.registry[ImeiString(imei)] == d)
  {
    hide ImeiString, IsShort;
    assert Sound(s, d);
    if ImeiString(imei) in s.registry && s.registry[ImeiString(imei)] == d {
      ImeiStringInjective(s.devices[d].imei, imei);
    }
  }

  /** Writing the position of one device. */
  lemma HeldAfter(s: State, d: nat, v: Device, imei: bytes)
    requires Safe(s) && d in s.devices && |imei| == IMEI_LENGTH && Safe(SetDevice(s, d, v))
    ensures Held(SetDevice(s, d, v), imei) == if s.devices[d].imei == imei then v.fix else Held(s, imei)
    ensures s.devices[d].imei == imei ==> Held(s, imei) == s.devices[d].fix
  {
    hide ImeiString, Safe;
    OwnDevice(s, d, imei);
  }

  lemma SameHeld(s: State, t: State, imei: bytes)
    requires Safe(s) && Safe(t) && t.devices == s.devices && t.registry == s.registry
    ensures Held(t, imei) == Held(s, imei)
  {
  }

  lemma GpsFollows(s: State, c: nat, r: GpsRequest, now: int, imei: bytes)
    requires Safe(s) && c in s.conns && WellFormed(r) && |imei| == IMEI_LENGTH
    requires Safe(GpsStep(s, c, r, now))
    ensures Follows(s, GpsStep(s, c, r, now), UpdateOf(s, Message(c, Gps(r, now)), imei), imei)
  {
    hide ImeiString, Filter, Safe, Held, Follows;
    if r.length < MIN_GPS_LENGTH || s.conns[c].None? {
      assert s.log + [] == s.log;
      Silent(s, s, [], imei);
    } else {
      GpsReport(s, c, r, now, imei);
    }
  }

  lemma Bound(s: State, c: nat)
    requires Safe(s) && c in s.conns && s.conns[c].Some?
    ensures
      var d := s.conns[c].value;
      d in s.devices && IsShort(s.devices[d].fix.course) && |s.devices[d].imei| == IMEI_LENGTH
  {
    hide ImeiString, IsShort;
    assert Sound(s, s.conns[c].value);
  }

  lemma GpsReport(s: State, c: nat, r: GpsRequest, now: int, imei: bytes)
    requires Safe(s) && c in s.conns && s.conns[c].Some? && WellFormed(r) && |imei| == IMEI_LENGTH
    requires r.length >= MIN_GPS_LENGTH && Safe(GpsStep(s, c, r, now))
    ensures Follows(s, GpsStep(s, c, r, now), UpdateOf(s, Message(c, Gps(r, now)), imei), imei)
  {
    hide ImeiString, Filter, Safe, Held, Saves, Pushes, SavedFor, PushedFor, IsShort;
    Bound(s, c);
    var d := s.conns[c].value;
    var v := Touched(s.devices[d], c);
    var (w, outputs) := Filter(v, r, now);
    FilterOutputs(v, r, now);
    FilterNames(v, r, now);
    SafeGpsDevice(s, c, r, now);
    HeldAfter(s, d, w, imei);
    SameHeld(SetDevice(s, d, w), GpsStep(s, c, r, now), imei);
    LogAppend(s.log, outputs, imei);
    OneDevice(outputs, v.imei, imei);
    OneMark(Held(s, imei), FixOf(r));
  }

  lemma FilterNames(v: Device, r: GpsRequest, now: int)
    ensures forall o :: o in Filter(v, r, now).1 && (o.SaveGps? || o.PushGps?) ==> o.imei == v.imei
  {
  }

  lemma SafeGpsDevice(s: State, c: nat, r: GpsRequest, now: int)
    requires Safe(s) && c in s.conns && s.conns[c].Some? && r.length >= MIN_GPS_LENGTH
    ensures var d := s.conns[c].value; Safe(SetDevice(s, d, Filter(Touched(s.devices[d], c), r, now).0))
  {
    hide ImeiString, IsShort, Filter;
    var d := s.conns[c].value;
    assert Sound(s, d);
    FilterKeeps(Touched(s.devices[d], c), r, now);
    SafeDevice(s, d, Filter(Touched(s.devices[d], c), r, now).0);
  }

  lemma OneMark(held: Fix, fix: Fix)
    ensures var ms := Marks(held, [Reported(fix)]);
      ms == [Mark(fix, fix != held || fix.course < 0)] && Fixes(ms) == [fix]
      && SavedFixes(ms) == (if fix != held || fix.course < 0 then [fix] else [])
    ensures After(held, [Reported(fix)]) == fix
    ensures After(held, [Alarmed(fix)]) == fix && Marks(held, [Alarmed(fix)]) == []
    ensures After(held, [Rebuilt]) == ORIGIN && Marks(held, [Rebuilt]) == []
    ensures Fixes([]) == [] && SavedFixes([]) == [] && Marks(held, []) == [] && After(held, []) == held
  {
    assert Marks(fix, []) == [] && Marks(ORIGIN, []) == [];
    SavedHead(Mark(fix, fix != held || fix.course < 0), []);
  }

  lemma AlarmFollows(s: State, c: nat, r: GpsRequest, kind: byte, seq0: byte, seq1: byte, imei: bytes)
    requires Safe(s) && c in s.conns && |imei| == IMEI_LENGTH && WellFormed(r)
    requires Safe(AlarmStep(s, c, r, kind, seq0, seq1))
    ensures
      var us := UpdateOf(s, Message(c, Alarm(r, kind, seq0, seq1)), imei);
      Follows(s, AlarmStep(s, c, r, kind, seq0, seq1), us, imei)
  {
    hide ImeiString, Safe, Held, SavedFor, PushedFor, ResponseBytes, IsShort;
    OneMark(Held(s, imei), FixOf(r));
    if s.conns[c].None? {
      assert s.log + [] == s.log;
      Silent(s, s, [], imei);
    } else {
      Bound(s, c);
      var d := s.conns[c].value;
      var v := s.devices[d].(fix := FixOf(r), cell := r.cell);
      var outputs := [Write(c, ResponseBytes(CMD_ALARM, HEADER_SIZE, seq0, seq1))]
                     + if IsLocated(r) then [PushAlarm(v.imei, kind)] else [];
      SafeAlarmDevice(s, c, r);
      HeldAfter(s, d, v, imei);
      SameHeld(SetDevice(s, d, v), AlarmStep(s, c, r, kind, seq0, seq1), imei);
      LogAppend(s.log, outputs, imei);
      NoPositions(outputs, imei);
    }
  }

  lemma SafeAlarmDevice(s: State, c: nat, r: GpsRequest)
    requires Safe(s) && c in s.conns && s.conns[c].Some?
    ensures var d := s.conns[c].value; Safe(SetDevice(s, d, s.devices[d].(fix := FixOf(r), cell := r.cell)))
  {
    hide ImeiString;
    var d := s.conns[c].value;
    assert Sound(s, d);
    SafeDevice(s, d, s.devices[d].(fix := FixOf(r), cell := r.cell));
  }

  lemma LoginFollows(s: State, c: nat, name: bytes, seq0: byte, seq1: byte, imei: bytes)
    requires Safe(s) && c in s.conns && |name| == IMEI_LENGTH && |imei| == IMEI_LENGTH
    requires Safe(LoginStep(s, c, name, seq0, seq1))
    ensures Follows(s, LoginStep(s, c, name, seq0, seq1), [], imei)
  {
    hide ImeiString, SavedFor, PushedFor, ResponseBytes, Safe, Follows;
    var t, d := LoginStep(s, c, name, seq0, seq1), Bind(s, c, name).1;
    var outputs := (if s.conns[c].None? && ImeiString(name) !in s.registry then [SaveDid(name)] else [])
                   + [Write(c, ResponseBytes(CMD_LOGIN, HEADER_SIZE, seq0, seq1)),
                      Subscribe(Bind(s, c, name).0.devices[d].imei)];
    LoginHeld(s, c, name, seq0, seq1, imei);
    Silent(s, t, outputs, imei);
  }

  lemma LoginHeld(s: State, c: nat, name: bytes, seq0: byte, seq1: byte, imei: bytes)
    requires Safe(s) && c in s.conns && |name| == IMEI_LENGTH && |imei| == IMEI_LENGTH
    requires Safe(LoginStep(s, c, name, seq0, seq1))
    ensures Held(LoginStep(s, c, name, seq0, seq1), imei) == Held(s, imei)
  {
    hide ImeiString, ResponseBytes, IsShort;
  }

  lemma ReloadFollows(s: State, key: bytes, imei: bytes)
    requires Safe(s) && s.conns == map[] && |key| >= 2 * IMEI_LENGTH && Safe(ReloadStep(s, key))
    requires |imei| == IMEI_LENGTH
    ensures Follows(s, ReloadStep(s, key), UpdateOf(s, Reload(key), imei), imei)
  {
    hide ImeiString, Imei, Safe, SavedFor, PushedFor, Held;
    LogAppend(s.log, [Subscribe(Imei(key))], imei);
    NoPositions([Subscribe(Imei(key))], imei);
    OneMark(Held(s, imei), ORIGIN);
    ReloadHeld(s, key, imei);
  }

  lemma ReloadHeld(s: State, key: bytes, imei: bytes)
    requires Safe(s) && s.conns == map[] && |key| >= 2 * IMEI_LENGTH && Safe(ReloadStep(s, key))
    requires |imei| == IMEI_LENGTH
    ensures Held(ReloadStep(s, key), imei) == if Imei(key) == imei then ORIGIN else Held(s, imei)
  {
    hide ImeiString, Imei, IsShort;
    if ImeiString(Imei(key)) == ImeiString(imei) {
      ImeiStringInjective(Imei(key), imei);
    } else if ImeiString(imei) in s.registry {
      assert Sound(s, s.registry[ImeiString(imei)]);
    }
  }

  lemma StepFollows(s: State, e: Event, imei: bytes)
    requires Safe(s) && Possible(e) && |imei| == IMEI_LENGTH && Safe(Step(s, e))
    ensures Follows(s, Step(s, e), UpdateOf(s, e, imei), imei)
  {
    hide Follows, GpsStep, AlarmStep, LoginStep, ReloadStep, Safe, Held, ResponseBytes, ImeiString, Imei, IsShort, From;
    assert s.log + [] == s.log;
    Silent(s, s, [], imei);
    match e
    case Accept => SameHeld(s, Step(s, e), imei); Silent(s, Step(s, e), [], imei);
    case Close(c) => if c in s.conns { CloseFollows(s, c, imei); }
    case Message(c, r) =>
      if c in s.conns {
        MessageFollows(s, c, r, imei);
      } else {
        NotFrom(s, c, imei);
      }
    case AppCommand(key, cmd, seqNo, data) => AppFollows(s, e, imei);
    case Reload(key) => if s.conns == map[] { ReloadFollows(s, key, imei); }
  }

  lemma NotFrom(s: State, c: nat, imei: bytes)
    requires Safe(s) && c !in s.conns
    ensures !From(s, c, imei)
  {
  }

  lemma AppFollows(s: State, e: Event, imei: bytes)
    requires Safe(s) && e.AppCommand? && Possible(e) && Safe(Step(s, e))
    ensures Follows(s, Step(s, e), [], imei)
  {
    hide ImeiString, Follows, Held, IsShort;
    SameHeld(s, Step(s, e), imei);
    if e.key in s.registry && s.devices[s.registry[e.key]].isOnline {
      var v := s.devices[s.registry[e.key]];
      assert Sound(s, s.registry[e.key]);
      Silent(s, Step(s, e), [Command(v.session.value, Token(e.cmd, e.seqNo), e.data)], imei);
    } else {
      assert s.log + [] == s.log;
      Silent(s, s, [], imei);
    }
  }

  lemma CloseFollows(s: State, c: nat, imei: bytes)
    requires Safe(s) && c in s.conns && |imei| == IMEI_LENGTH && Safe(CloseStep(s, c))
    ensures Follows(s, CloseStep(s, c), [], imei)
  {
    hide ImeiString, Follows, Safe, IsShort;
    assert s.log + [] == s.log;
    CloseHeld(s, c, imei);
    Silent(s, CloseStep(s, c), [], imei);
  }

  lemma CloseHeld(s: State, c: nat, imei: bytes)
    requires Safe(s) && c in s.conns && Safe(CloseStep(s, c))
    ensures Held(CloseStep(s, c), imei) == Held(s, imei) && CloseStep(s, c).log == s.log
  {
    hide ImeiString, IsShort;
  }

  lemma MessageFollows(s: State, c: nat, r: Request, imei: bytes)
    requires Safe(s) && c in s.conns && Possible(Message(c, r)) && |imei| == IMEI_LENGTH && Safe(Handle(s, c, r))
    ensures Follows(s, Handle(s, c, r), UpdateOf(s, Message(c, r), imei), imei)
  {
    hide Follows, GpsStep, AlarmStep, LoginStep, Safe, Held, ResponseBytes, ImeiString, Imei, IsShort, From;
    var t := Handle(s, c, r);
    match r
    case Login(name, seq0, seq1) => LoginFollows(s, c, name, seq0, seq1, imei);
    case Gps(request, now) => GpsFollows(s, c, request, now, imei);
    case Alarm(report, kind, seq0, seq1) => AlarmFollows(s, c, report, kind, seq0, seq1, imei);
    case _ =>
      SameHeld(s, t, imei);
      var outputs := t.log[|s.log|..];
      AnswerLog(s, c, r);
      Silent(s, t, outputs, imei);
  }

  lemma AnswerLog(s: State, c: nat, r: Request)
    requires Safe(s) && c in s.conns && !r.Login? && !r.Gps? && !r.Alarm?
    ensures var t := Handle(s, c, r);
      && t.devices == s.devices && t.registry == s.registry && |t.log| >= |s.log|
      && t.log == s.log + t.log[|s.log|..]
      && forall o :: o in t.log[|s.log|..] ==> !o.SaveGps? && !o.PushGps?
  {
    hide ResponseBytes, Safe, ImeiString;
  }

  /**
   * Over any run of the protocol: for every IMEI, the position that is held is the last one that was set, the app
   * gets every accepted report once and in order, and the reports that are saved are those that the rule of the code
   * marks.
   */
  lemma {:induction false} PositionsOverRuns(es: seq<Event>, imei: bytes)
    requires AllPossible(es) && |imei| == IMEI_LENGTH
    ensures
      var us := Updates(es, imei);
      && Held(Run(es), imei) == After(ORIGIN, us)
      && PushedFor(Run(es).log, imei) == Fixes(Marks(ORIGIN, us))
      && SavedFor(Run(es).log, imei) == SavedFixes(Marks(ORIGIN, us))
    decreases |es|
  {
    hide Held, Marks, After, Fixes, SavedFixes, SavedFor, PushedFor, Step, UpdateOf, Safe;
    if es == [] {
      NothingYet(imei);
    } else {
      var n := |es| - 1;
      var s, e := Run(es[..n]), es[n];
      PositionsOverRuns(es[..n], imei);
      SafeStep(s, e);
      StepFollows(s, e, imei);
      MoreUpdates(Updates(es[..n], imei), UpdateOf(s, e, imei));
    }
  }

  lemma NothingYet(imei: bytes)
    ensures Safe(INITIAL) && Held(INITIAL, imei) == ORIGIN && After(ORIGIN, []) == ORIGIN && Marks(ORIGIN, []) == []
    ensures Fixes([]) == [] && SavedFixes([]) == [] && SavedFor([], imei) == [] && PushedFor([], imei) == []
  {
  }

  lemma MoreUpdates(us: seq<Update>, more: seq<Update>)
    requires |more| <= 1
    ensures After(ORIGIN, us + more) == After(After(ORIGIN, us), more)
    ensures Fixes(Marks(ORIGIN, us + more)) == Fixes(Marks(ORIGIN, us)) + Fixes(Marks(After(ORIGIN, us), more))
    ensures SavedFixes(Marks(ORIGIN, us + more))
      == SavedFixes(Marks(ORIGIN, us)) + SavedFixes(Marks(After(ORIGIN, us), more))
  {
    hide Marks, After, Fixes, SavedFixes, FixAfter;
    OneMark(After(ORIGIN, us), ORIGIN);
    if more == [] {
      assert us + more == us;
    } else {
      assert more == [more[0]];
      MarksAppend(ORIGIN, us, more[0]);
      LastUpdate(After(ORIGIN, us), more[0]);
      MarkedAppend(Marks(ORIGIN, us), Marks(After(ORIGIN, us), more));
    }
  }

  lemma LastUpdate(held: Fix, u: Update)
    ensures After(held, [u]) == FixAfter(held, u)
  {
  }

  /** After an alarm a located report of the same position, with a course below 0x8000, is pushed and never saved. */
  lemma AlarmMasks(s: State, c: nat, r: GpsRequest, kind: byte, seq0: byte, seq1: byte, now: int, imei: bytes)
    requires Safe(s) && From(s, c, imei) && |imei| == IMEI_LENGTH && WellFormed(r)
    requires IsLocated(r) && r.course < 0x8000 && r.length >= MIN_GPS_LENGTH
    ensures
      var t := Step(s, Message(c, Alarm(r, kind, seq0, seq1)));
      && Safe(t)
      && var u := Step(t, Message(c, Gps(r, now)));
      PushedFor(u.log, imei) == PushedFor(s.log, imei) + [FixOf(r)] && SavedFor(u.log, imei) == SavedFor(s.log, imei)
  {
    hide Safe, Held, SavedFor, PushedFor, Step, From, Marks, After, Fixes, SavedFixes;
    var a, g := Message(c, Alarm(r, kind, seq0, seq1)), Message(c, Gps(r, now));
    SafeStep(s, a);
    var t := Step(s, a);
    StepFollows(s, a, imei);
    OneMark(Held(s, imei), FixOf(r));
    StillFrom(s, c, r, kind, seq0, seq1, imei);
    SafeStep(t, g);
    StepFollows(t, g, imei);
    OneMark(FixOf(r), FixOf(r));
    CourseFits(r);
  }

  lemma CourseFits(r: GpsRequest)
    requires WellFormed(r) && r.course < 0x8000
    ensures FixOf(r).course >= 0
  {
  }

  lemma StillFrom(s: State, c: nat, r: GpsRequest, kind: byte, seq0: byte, seq1: byte, imei: bytes)
    requires Safe(s) && From(s, c, imei) && WellFormed(r) && Safe(Step(s, Message(c, Alarm(r, kind, seq0, seq1))))
    ensures From(Step(s, Message(c, Alarm(r, kind, seq0, seq1))), c, imei)
  {
    hide ImeiString, ResponseBytes, IsShort;
  }
}
