/** What the server knows of a device, and the filter that decides which positions are saved. */
module Devices {
  import opened Bytes
  import opened Codecs

  datatype Option<+T> = None | Some(value: T)

  /** Latitude and longitude are compared as 32-bit patterns; the course is kept in a short. */
  datatype Fix = Fix(lat: int, lon: int, speed: byte, course: int)

  /** OBJ_MC: `session` is the connection that the device was last heard on. */
  datatype Device = Device(imei: bytes, isOnline: bool, session: Option<nat>, fix: Fix, cell: bytes, timestamp: int,
                           isGPSlocated: bool)

  /** A GPS request; `length` is the header field as read, its bytes not swapped, `course` an unsigned 16-bit value. */
  datatype GpsRequest = GpsRequest(length: nat, timestamp: int, lat: int, lon: int, speed: byte, course: int,
                                   cell: bytes, location: byte)

  /** What leaves the server. */
  datatype Output =
    | Write(conn: nat, frame: bytes)
    | Command(conn: nat, token: int, data: bytes)
    | PushGps(imei: bytes, fix: Fix, timestamp: int, located: bool)
    | PushAlarm(imei: bytes, kind: byte)
    | PushResponse(imei: bytes, cmd: int, seqNo: int, data: bytes)
    | SaveGps(imei: bytes, fix: Fix)
    | SaveDid(imei: bytes)
    | Subscribe(imei: bytes)

  /** `sizeof(MC_MSG_LOGIN_REQ) - MC_MSG_HEADER_LEN` */
  const MIN_GPS_LENGTH: nat := 12

  /** A 16-bit field as the bytes `high`, `low` of the message, and as a little-endian machine reads it unswapped. */
  function Swapped(length: int): int {
    length % 0x100 * 0x100 + length / 0x100
  }

  /**
   * The check compares the unswapped field: a message is refused when its length is a multiple of 256 below 3072,
   * whatever is too short otherwise.
   */
  lemma LengthCheck(length: int)
    requires 0 <= length < 0x1_0000
    ensures Swapped(length) < MIN_GPS_LENGTH <==> length % 0x100 == 0 && length < 0xC00
  {
    var high, low := length / 0x100, length % 0x100;
    assert Swapped(length) == low * 0x100 + high;
  }

  /** Both sides occur: a message of length 256 is refused, and one of length 1 is not. */
  lemma LengthInstances()
    ensures Swapped(0x100) < MIN_GPS_LENGTH <= Swapped(1)
  {
  }

  predicate IsLocated(r: GpsRequest) {
    r.location % 2 == 1
  }

  /** A position without a satellite fix is discarded, unless the device has no position yet. */
  predicate Accepts(d: Device, r: GpsRequest) {
    IsLocated(r) || d.fix.lon == 0
  }

  function FixOf(r: GpsRequest): Fix {
    Fix(r.lat, r.lon, r.speed, Short(r.course))
  }

  /** The comparison with the last position; a course kept in a short never equals one of 0x8000 or more. */
  predicate SamePosition(d: Device, r: GpsRequest) {
    d.fix.lat == r.lat && d.fix.lon == r.lon && d.fix.speed == r.speed && d.fix.course == r.course
  }

  function Pushed(d: Device): Output {
    PushGps(d.imei, d.fix, d.timestamp, d.isGPSlocated)
  }

  /** The part of mc_gps that follows the session update: the new device, and what is sent in that order. */
  function Filter(d: Device, r: GpsRequest, now: int): (Device, seq<Output>) {
    if !Accepts(d, r) then (d.(timestamp := now, isGPSlocated := false), [])
    else if SamePosition(d, r) then
      var e := d.(timestamp := r.timestamp, isGPSlocated := IsLocated(r));
      (e, [Pushed(e)])
    else
      var e := d.(fix := FixOf(r), cell := r.cell, timestamp := r.timestamp, isGPSlocated := IsLocated(r));
      (e, [Pushed(e), SaveGps(e.imei, e.fix)])
  }

  // Runs of GPS messages on one device

  datatype Reading = Reading(request: GpsRequest, now: int)

  function RunGps(d: Device, rs: seq<Reading>): (Device, seq<Output>)
    decreases rs
  {
    if rs == [] then (d, [])
    else
      var (e, first) := Filter(d, rs[0].request, rs[0].now);
      var (f, rest) := RunGps(e, rs[1..]);
      (f, first + rest)
  }

  /** The accepted fixes: `lon` is the longitude that the device holds, zero for none. */
  function AcceptedFixes(lon: int, rs: seq<Reading>): seq<Fix>
    decreases rs
  {
    if rs == [] then []
    else if IsLocated(rs[0].request) || lon == 0 then [FixOf(rs[0].request)] + AcceptedFixes(rs[0].request.lon, rs[1..])
    else AcceptedFixes(lon, rs[1..])
  }

  function Saves(outputs: seq<Output>): seq<Fix> {
    if outputs == [] then []
    else (if outputs[0].SaveGps? then [outputs[0].fix] else []) + Saves(outputs[1..])
  }

  function Pushes(outputs: seq<Output>): seq<Fix> {
    if outputs == [] then []
    else (if outputs[0].PushGps? then [outputs[0].fix] else []) + Pushes(outputs[1..])
  }

  /** Consecutive repeats removed, starting from what is already held. */
  function Changes(held: Fix, fixes: seq<Fix>): seq<Fix>
    decreases fixes
  {
    if fixes == [] then []
    else if fixes[0] == held then Changes(held, fixes[1..])
    else [fixes[0]] + Changes(fixes[0], fixes[1..])
  }

  /** Repeats of a fix whose course does not fit a short, which the comparison fails to recognise. */
  function WideRepeats(held: Fix, fixes: seq<Fix>): nat
    decreases fixes
  {
    if fixes == [] then 0
    else (if fixes[0] == held && fixes[0].course < 0 then 1 else 0) + WideRepeats(fixes[0], fixes[1..])
  }

  function LastFix(held: Fix, fixes: seq<Fix>): Fix {
    if fixes == [] then held else fixes[|fixes| - 1]
  }

  ghost predicate WellFormed(r: GpsRequest) {
    0 <= r.course < 0x1_0000
  }

  /** The comparison recognises a repeat exactly when the course fits. */
  lemma RepeatRecognised(d: Device, r: GpsRequest)
    requires WellFormed(r) && IsShort(d.fix.course)
    ensures SamePosition(d, r) <==> FixOf(r) == d.fix && r.course < 0x8000
    ensures FixOf(r).course < 0 <==> r.course >= 0x8000
  {
  }

  lemma {:induction false} SavesAppend(a: seq<Output>, b: seq<Output>)
    ensures Saves(a + b) == Saves(a) + Saves(b)
  {
    if a == [] {
      assert a + b == b;
    } else {
      assert (a + b)[1..] == a[1..] + b && (a + b)[0] == a[0];
      SavesAppend(a[1..], b);
    }
  }

  lemma {:induction false} PushesAppend(a: seq<Output>, b: seq<Output>)
    ensures Pushes(a + b) == Pushes(a) + Pushes(b)
  {
    if a == [] {
      assert a + b == b;
    } else {
      assert (a + b)[1..] == a[1..] + b && (a + b)[0] == a[0];
      PushesAppend(a[1..], b);
    }
  }

  lemma LastFixStep(held: Fix, fixes: seq<Fix>)
    requires fixes != []
    ensures LastFix(held, fixes) == LastFix(fixes[0], fixes[1..])
  {
  }

  /** What one message saves and pushes. */
  lemma FilterOutputs(d: Device, r: GpsRequest, now: int)
    requires WellFormed(r) && IsShort(d.fix.course)
    ensures
      var (e, out) := Filter(d, r, now);
      if Accepts(d, r) then
        && e.fix == FixOf(r) && Pushes(out) == [FixOf(r)]
        && Saves(out) == (if FixOf(r) == d.fix && FixOf(r).course >= 0 then [] else [FixOf(r)])
      else e.fix == d.fix && Pushes(out) == [] && Saves(out) == []
  {
    RepeatRecognised(d, r);
    var (e, out) := Filter(d, r, now);
    if Accepts(d, r) {
      OutputsOf(Pushed(e), e);
    }
  }

  lemma OutputsOf(p: Output, e: Device)
    requires p.PushGps?
    ensures Pushes([p]) == [p.fix] && Saves([p]) == []
    ensures Pushes([p, SaveGps(e.imei, e.fix)]) == [p.fix] && Saves([p, SaveGps(e.imei, e.fix)]) == [e.fix]
  {
    assert [p, SaveGps(e.imei, e.fix)][1..] == [SaveGps(e.imei, e.fix)];
    assert Pushes([SaveGps(e.imei, e.fix)]) == [] && Saves([SaveGps(e.imei, e.fix)]) == [e.fix];
  }

  /**
   * Over any run of GPS messages the app receives every accepted fix once and in order, and the device holds the last
   * of them.
   */
  lemma {:induction false} EveryFixIsPushed(d: Device, rs: seq<Reading>)
    requires IsShort(d.fix.course) && forall i :: 0 <= i < |rs| ==> WellFormed(rs[i].request)
    ensures
      var (e, out) := RunGps(d, rs);
      var fixes := AcceptedFixes(d.fix.lon, rs);
      Pushes(out) == fixes && e.fix == LastFix(d.fix, fixes)
    decreases rs
  {
    hide Filter, Pushes, Saves;
    if rs == [] {
      assert Pushes([]) == [] by { NothingSent(); }
    } else {
      var r := rs[0].request;
      FilterOutputs(d, r, rs[0].now);
      var (e, first) := Filter(d, r, rs[0].now);
      EveryFixIsPushed(e, rs[1..]);
      PushesAppend(first, RunGps(e, rs[1..]).1);
      if Accepts(d, r) {
        LastFixStep(d.fix, AcceptedFixes(d.fix.lon, rs));
      }
    }
  }

  lemma NothingSent()
    ensures Pushes([]) == [] && Saves([]) == []
  {
  }

  /**
   * Over any run the saved positions are the accepted fixes without consecutive repeats exactly when no repeated fix
   * has a course of 0x8000 or more; each such repeat is saved once more.
   */
  lemma {:induction false} SavedPositions(d: Device, rs: seq<Reading>)
    requires IsShort(d.fix.course) && forall i :: 0 <= i < |rs| ==> WellFormed(rs[i].request)
    ensures
      var saved, fixes := Saves(RunGps(d, rs).1), AcceptedFixes(d.fix.lon, rs);
      && |saved| == |Changes(d.fix, fixes)| + WideRepeats(d.fix, fixes)
      && (saved == Changes(d.fix, fixes) <==> WideRepeats(d.fix, fixes) == 0)
      && LastFix(d.fix, saved) == LastFix(d.fix, fixes)
    decreases rs
  {
    hide Filter, Pushes, Saves;
    if rs == [] {
      NothingSent();
    } else {
      var r := rs[0].request;
      FilterOutputs(d, r, rs[0].now);
      var (e, first) := Filter(d, r, rs[0].now);
      SavedPositions(e, rs[1..]);
      SavesAppend(first, RunGps(e, rs[1..]).1);
      var fixes := AcceptedFixes(d.fix.lon, rs);
      if Accepts(d, r) {
        LastFixStep(d.fix, fixes);
        assert fixes[1..] == AcceptedFixes(e.fix.lon, rs[1..]);
        SavedStep(d.fix, fixes, Saves(RunGps(e, rs[1..]).1));
      } else {
        assert [] + Saves(RunGps(e, rs[1..]).1) == Saves(RunGps(e, rs[1..]).1);
      }
    }
  }

  /** A device that holds a fix with course -1 saves it again when it is reported once more, with the course 0xFFFF. */
  lemma RepeatSaved(d: Device, r: GpsRequest, now: int)
    requires IsLocated(r) && r.course == 0xFFFF && d.fix == Fix(r.lat, r.lon, r.speed, -1)
    ensures WideRepeats(d.fix, AcceptedFixes(d.fix.lon, [Reading(r, now)])) == 1
    ensures Saves(RunGps(d, [Reading(r, now)]).1) == [d.fix] && Changes(d.fix, [d.fix]) == []
  {
    hide Filter, Saves;
    assert FixOf(r) == d.fix;
    FilterOutputs(d, r, now);
    OneReading(d, Reading(r, now));
  }

  lemma OneReading(d: Device, x: Reading)
    ensures RunGps(d, [x]) == Filter(d, x.request, x.now)
  {
    hide Filter;
    var (e, out) := Filter(d, x.request, x.now);
    assert RunGps(e, []) == (e, []) && out + [] == out;
  }

  /** One accepted fix in front of a run. */
  lemma SavedStep(held: Fix, fixes: seq<Fix>, rest: seq<Fix>)
    requires fixes != []
    requires |rest| == |Changes(fixes[0], fixes[1..])| + WideRepeats(fixes[0], fixes[1..])
    requires rest == Changes(fixes[0], fixes[1..]) <==> WideRepeats(fixes[0], fixes[1..]) == 0
    requires LastFix(fixes[0], rest) == LastFix(fixes[0], fixes[1..])
    ensures
      var saved := (if fixes[0] == held && fixes[0].course >= 0 then [] else [fixes[0]]) + rest;
      && |saved| == |Changes(held, fixes)| + WideRepeats(held, fixes)
      && (saved == Changes(held, fixes) <==> WideRepeats(held, fixes) == 0)
      && LastFix(held, saved) == LastFix(held, fixes)
  {
    hide LastFix;
    var f, changes := fixes[0], Changes(fixes[0], fixes[1..]);
    LastFixStep(held, fixes);
    LastFixStep(held, [f] + rest);
    assert ([f] + rest)[1..] == rest && [] + rest == rest;
    if f == held && f.course >= 0 {
      assert Changes(held, fixes) == changes;
    } else if f == held {
      assert |[f] + rest| == 1 + |rest|;
    } else {
      assert Changes(held, fixes) == [f] + changes;
      assert ([f] + changes)[1..] == changes;
    }
  }
}
