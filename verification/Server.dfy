/**
 * The server's own objects: contexts, device objects and the registry, each callback refining a step of the protocol.
 */
module Server {
  import opened Bytes
  import opened Codecs
  import opened Frames
  import opened Devices
  import opened Session

  /** CB_CTX */
  class Context {
    const id: nat
    var obj: DeviceObject?
    /** `pSendMsg` is set: it is from accept to close */
    var canSend: bool

    constructor (n: nat)
      ensures id == n && obj == null && canSend
    {
      id, obj, canSend := n, null, true;
    }
  }

  /** OBJ_MC */
  class DeviceObject {
    const id: nat
    var imei: bytes
    var isOnline: bool
    var session: Context?
    var lat: int
    var lon: int
    var speed: byte
    var course: int
    var cell: bytes
    var timestamp: int
    var isGPSlocated: bool

    /** mc_obj_new, with the IMEI copied in */
    constructor (imei: bytes, n: nat)
      ensures id == n && session == null && View() == NewDevice(imei)
    {
      id := n;
      this.imei, isOnline, session := imei, false, null;
      lat, lon, speed, course, cell, timestamp, isGPSlocated := 0, 0, 0, 0, seq(9, i => 0), 0, false;
    }

    ghost function View(): Device
      reads this
    {
      Device(imei, isOnline, if session == null then None else Some(session.id), Fix(lat, lon, speed, course), cell,
             timestamp, isGPSlocated)
    }

    /** The device is online, and its session is this connection. */
    method Touch(ctx: Context)
      modifies this`isOnline, this`session
      ensures View() == Touched(old(View()), ctx.id) && session == ctx
    {
      isOnline := true;
      session := ctx;
    }

    /** What mc_gps does after the session update: discard, repeat or change. */
    method FilterGps(r: GpsRequest, now: int) returns (outputs: seq<Output>)
      modifies this`lat, this`lon, this`speed, this`course, this`cell, this`timestamp, this`isGPSlocated
      ensures View() == Filter(old(View()), r, now).0 && outputs == Filter(old(View()), r, now).1
    {
      if !IsLocated(r) && lon != 0 {
        timestamp := now;
        isGPSlocated := false;
        return [];
      }
      if lat == r.lat && lon == r.lon && speed == r.speed && course == r.course {
        timestamp := r.timestamp;
        isGPSlocated := IsLocated(r);
        return [PushGps(imei, Fix(lat, lon, speed, course), timestamp, isGPSlocated)];
      }
      SetPosition(r);
      timestamp := r.timestamp;
      isGPSlocated := IsLocated(r);
      var fix := Fix(lat, lon, speed, course);
      outputs := [PushGps(imei, fix, timestamp, isGPSlocated), SaveGps(imei, fix)];
    }

    method SetPosition(r: GpsRequest)
      modifies this`lat, this`lon, this`speed, this`course, this`cell
      ensures View() == old(View()).(fix := FixOf(r), cell := r.cell)
    {
      lat, lon, speed := r.lat, r.lon, r.speed;
      course := Short(r.course);
      cell := r.cell;
    }

    /** The device is offline and has no session. */
    method Drop()
      modifies this`isOnline, this`session
      ensures View() == old(View()).(isOnline := false, session := None) && session == null
    {
      isOnline := false;
      session := null;
    }
  }

  ghost function Binding(ctx: Context): Option<nat>
    reads ctx
  {
    if ctx.obj == null then None else Some(ctx.obj.id)
  }

  /** A device object that has not been freed, or null. */
  ghost predicate Known(obj: DeviceObject?, devices: map<nat, DeviceObject>) {
    obj != null ==> obj.id in devices && devices[obj.id] == obj
  }

  /** A context that has not been freed, or null. */
  ghost predicate Live(ctx: Context?, conns: map<nat, Context>) {
    ctx != null ==> ctx.id in conns && conns[ctx.id] == ctx
  }

  ghost predicate ConnsLinked(conns: map<nat, Context>, devices: map<nat, DeviceObject>)
    reads conns.Values`obj, conns.Values`canSend
  {
    forall c :: c in conns ==> conns[c].id == c && conns[c].canSend && Known(conns[c].obj, devices)
  }

  ghost predicate DevicesLinked(conns: map<nat, Context>, devices: map<nat, DeviceObject>)
    reads devices.Values`session
  {
    forall d :: d in devices ==> devices[d].id == d && Live(devices[d].session, conns)
  }

  ghost predicate TableLinked(table: map<bytes, DeviceObject>, devices: map<nat, DeviceObject>) {
    forall k :: k in table ==> Known(table[k], devices)
  }

  lemma OthersApart(conns: map<nat, Context>, devices: map<nat, DeviceObject>, obj: DeviceObject)
    requires DevicesLinked(conns, devices)
    ensures forall e :: e in devices && e != obj.id ==> devices[e] != obj && Live(devices[e].session, conns)
    ensures forall e :: e in devices ==> devices[e].id == e
  {
  }

  lemma Relinked(conns: map<nat, Context>, devices: map<nat, DeviceObject>, obj: DeviceObject, ctx: Context?)
    requires obj.session == ctx && Live(ctx, conns) && Known(obj, devices)
    requires forall e :: e in devices ==> devices[e].id == e
    requires forall e :: e in devices && e != obj.id ==> Live(devices[e].session, conns)
    ensures DevicesLinked(conns, devices)
  {
  }

  lemma OtherContexts(conns: map<nat, Context>, devices: map<nat, DeviceObject>, ctx: Context)
    requires ConnsLinked(conns, devices)
    ensures forall c :: c in conns && c != ctx.id ==> conns[c] != ctx && Known(conns[c].obj, devices)
    ensures forall c :: c in conns ==> conns[c].id == c && conns[c].canSend
  {
  }

  lemma ContextLinked(conns: map<nat, Context>, devices: map<nat, DeviceObject>, ctx: Context)
    requires Live(ctx, conns) && Known(ctx.obj, devices)
    requires forall c :: c in conns && c != ctx.id ==> Known(conns[c].obj, devices)
    requires forall c :: c in conns ==> conns[c].id == c && conns[c].canSend
    ensures ConnsLinked(conns, devices)
  {
  }

  lemma LinkedOpen(conns: map<nat, Context>, devices: map<nat, DeviceObject>, ctx: Context)
    requires ConnsLinked(conns, devices) && DevicesLinked(conns, devices)
    requires ctx.id !in conns && ctx.canSend && ctx.obj == null
    ensures ConnsLinked(conns[ctx.id := ctx], devices) && DevicesLinked(conns[ctx.id := ctx], devices)
  {
  }

  class ServerState {
    /** g_table */
    var table: map<bytes, DeviceObject>
    /** What was handed to the network libraries. */
    var log: seq<Output>
    /** What is allocated, under numbers that stand for addresses. */
    ghost var conns: map<nat, Context>
    ghost var devices: map<nat, DeviceObject>
    var nextConn: nat
    var nextDevice: nat

    ghost predicate Linked()
      reads this`table, this`conns, this`devices, conns.Values`obj, conns.Values`canSend, devices.Values`session
    {
      ConnsLinked(conns, devices) && DevicesLinked(conns, devices) && TableLinked(table, devices)
    }

    /** The protocol state that these objects stand for. */
    ghost function Abs(): State
      reads this, conns.Values, devices.Values
    {
      State(Bindings(conns), Views(devices), Ids(table), nextConn, nextDevice, log)
    }

    ghost predicate Valid()
      reads this, conns.Values, devices.Values
    {
      Linked() && Safe(Abs())
    }

    constructor ()
      ensures Valid() && Abs() == INITIAL
    {
      table, log := map[], [];
      conns, devices, nextConn, nextDevice := map[], map[], 0, 0;
    }

    /** The server is not among the objects that it refers to. */
    lemma Elsewhere()
      ensures forall o: object :: o in conns.Values || o in devices.Values ==> o != this
    {
    }

    /** accept_conn_cb */
    method Accept() returns (ctx: Context)
      requires Valid()
      modifies this
      ensures Valid() && Abs() == Step(old(Abs()), Event.Accept)
      ensures fresh(ctx) && Live(ctx, conns) && conns.Values <= old(conns.Values) + {ctx} && devices == old(devices)
    {
      hide Safe, Linked, Bindings, Views, Ids;
      SafeStep(Abs(), Event.Accept);
      NewNumbers();
      ctx := new Context(nextConn);
      Open(ctx);
    }

    method Open(ctx: Context)
      requires Linked() && ctx.id == nextConn && nextConn !in conns && ctx.canSend && ctx.obj == null
      modifies this`conns, this`nextConn
      ensures Linked() && conns == old(conns)[ctx.id := ctx]
      ensures Abs() == old(Abs()).(conns := old(Abs()).conns[ctx.id := None], nextConn := ctx.id + 1)
    {
      hide Bindings, Views, Ids, ConnsLinked, DevicesLinked, TableLinked;
      Elsewhere();
      BindingsAdd(conns, nextConn, ctx);
      LinkedOpen(conns, devices, ctx);
      conns := conns[nextConn := ctx];
      nextConn := nextConn + 1;
    }

    /** Numbers are not used twice. */
    lemma NewNumbers()
      requires Safe(Abs())
      ensures nextConn !in conns && nextDevice !in devices
    {
      assert nextConn in conns ==> nextConn in Abs().conns;
      assert nextDevice in devices ==> nextDevice in Abs().devices;
    }

    method Touch(obj: DeviceObject, ctx: Context)
      requires Linked() && Known(obj, devices) && Live(ctx, conns)
      modifies obj`isOnline, obj`session
      ensures Linked() && Abs() == SetDevice(old(Abs()), obj.id, Touched(old(obj.View()), ctx.id))
    {
      hide Bindings, Ids, Views, ConnsLinked, DevicesLinked, TableLinked, DeviceObject.View;
      ghost var before := Views(devices);
      OthersApart(conns, devices, obj);
      obj.Touch(ctx);
      ViewsSet(devices, before, obj.id);
      Relinked(conns, devices, obj, ctx);
    }

    method Drop(obj: DeviceObject)
      requires Linked() && Known(obj, devices)
      modifies obj`isOnline, obj`session
      ensures Linked() && Abs() == SetDevice(old(Abs()), obj.id, old(obj.View()).(isOnline := false, session := None))
    {
      hide Bindings, Ids, Views, ConnsLinked, DevicesLinked, TableLinked, DeviceObject.View;
      ghost var before := Views(devices);
      OthersApart(conns, devices, obj);
      obj.Drop();
      ViewsSet(devices, before, obj.id);
      Relinked(conns, devices, obj, null);
    }

    method FilterGps(obj: DeviceObject, r: GpsRequest, now: int) returns (outputs: seq<Output>)
      requires Linked() && Known(obj, devices)
      modifies obj`lat, obj`lon, obj`speed, obj`course, obj`cell, obj`timestamp, obj`isGPSlocated
      ensures Linked() && Abs() == SetDevice(old(Abs()), obj.id, Filter(old(obj.View()), r, now).0)
      ensures outputs == Filter(old(obj.View()), r, now).1
    {
      hide Bindings, Ids, Views, ConnsLinked, DevicesLinked, TableLinked, DeviceObject.View, Filter;
      ghost var before := Views(devices);
      OthersApart(conns, devices, obj);
      outputs := obj.FilterGps(r, now);
      ViewsSet(devices, before, obj.id);
    }

    method SetPosition(obj: DeviceObject, r: GpsRequest)
      requires Linked() && Known(obj, devices)
      modifies obj`lat, obj`lon, obj`speed, obj`course, obj`cell
      ensures Linked() && Abs() == SetDevice(old(Abs()), obj.id, old(obj.View()).(fix := FixOf(r), cell := r.cell))
    {
      hide Bindings, Ids, Views, ConnsLinked, DevicesLinked, TableLinked, DeviceObject.View;
      ghost var before := Views(devices);
      OthersApart(conns, devices, obj);
      obj.SetPosition(r);
      ViewsSet(devices, before, obj.id);
    }

    method Append(outputs: seq<Output>)
      requires Linked()
      modifies this`log
      ensures Linked() && Abs() == Send(old(Abs()), outputs)
    {
      hide Bindings, Ids, Views, Linked;
      log := log + outputs;
    }

    /** What a live context stands for. */
    lemma AbsAt(ctx: Context)
      requires Linked() && Live(ctx, conns)
      ensures ctx.id in Abs().conns && Abs().conns[ctx.id] == Binding(ctx) && ctx.canSend && Known(ctx.obj, devices)
      ensures ctx.obj != null ==> ctx.obj.id in Abs().devices && Abs().devices[ctx.obj.id] == ctx.obj.View()
    {
      hide DeviceObject.View;
    }

    /** mc_msg_send */
    method MsgSend(frame: bytes, ctx: Context?) returns (rc: int)
      requires Linked() && Live(ctx, conns)
      modifies this`log
      ensures Linked() && rc == if ctx == null then -1 else 0
      ensures Abs() == if ctx == null then old(Abs()) else Send(old(Abs()), [Write(ctx.id, frame)])
    {
      hide Linked, Abs, Send;
      if ctx == null {
        return -1;
      }
      AbsAt(ctx);
      Append([Write(ctx.id, frame)]);
      rc := 0;
    }

    /** Binds a connection to a device. */
    method Attach(ctx: Context, obj: DeviceObject)
      requires Linked() && Live(ctx, conns) && Known(obj, devices)
      modifies ctx`obj
      ensures Linked() && ctx.obj == obj
      ensures Abs() == old(Abs()).(conns := old(Abs()).conns[ctx.id := Some(obj.id)])
    {
      hide Ids, Views, Bindings, ConnsLinked, DevicesLinked, TableLinked;
      ghost var before := Bindings(conns);
      OtherContexts(conns, devices, ctx);
      ctx.obj := obj;
      BindingsSet(conns, before, ctx.id);
      ContextLinked(conns, devices, ctx);
    }

    /** mc_obj_new and mc_obj_add for an IMEI that is not in the table. */
    method Register(imei: bytes) returns (obj: DeviceObject)
      requires Valid() && |imei| == IMEI_LENGTH && ImeiString(imei) !in table
      modifies this`table, this`devices, this`nextDevice
      ensures Linked() && Known(obj, devices) && fresh(obj) && obj.id == old(nextDevice)
      ensures devices == old(devices)[obj.id := obj]
      ensures var s := old(Abs());
        Abs() == s.(devices := s.devices[obj.id := NewDevice(imei)], registry := s.registry[ImeiString(imei) := obj.id],
                    nextDevice := obj.id + 1)
    {
      hide Linked, Abs, Safe, ImeiString, DeviceObject.View;
      NewNumbers();
      obj := new DeviceObject(imei, nextDevice);
      Insert(obj, ImeiString(imei));
    }

    method Insert(obj: DeviceObject, key: bytes)
      requires Linked() && obj.id == nextDevice && nextDevice !in devices && obj.session == null
      modifies this`table, this`devices, this`nextDevice
      ensures Linked() && Known(obj, devices) && devices == old(devices)[obj.id := obj]
      ensures var s := old(Abs());
        Abs() == s.(devices := s.devices[obj.id := obj.View()], registry := s.registry[key := obj.id],
                    nextDevice := obj.id + 1)
    {
      hide Bindings, Ids, Views, ConnsLinked, DevicesLinked, TableLinked, DeviceObject.View;
      Elsewhere();
      LinkedRegister(conns, devices, table, obj, key);
      ViewsAdd(devices, obj);
      IdsAdd(table, key, obj);
      devices := devices[nextDevice := obj];
      table := table[key := obj];
      nextDevice := nextDevice + 1;
    }

    // Handlers

    /** The registry lookup and the creation in mc_login. */
    method BindTo(ctx: Context, imei: bytes) returns (obj: DeviceObject)
      requires Valid() && Live(ctx, conns) && |imei| == IMEI_LENGTH
      modifies this`table, this`devices, this`nextDevice, this`log, ctx`obj
      ensures Linked() && Known(obj, devices) && conns == old(conns)
      ensures Abs() == Bind(old(Abs()), ctx.id, imei).0 && obj.id == Bind(old(Abs()), ctx.id, imei).1
      ensures devices.Values <= old(devices.Values) + {obj} && (obj in old(devices.Values) || fresh(obj))
    {
      hide Linked, Safe, ImeiString, Abs, DeviceObject.View;
      AbsAt(ctx);
      TableAt(ImeiString(imei));
      if ctx.obj != null {
        return ctx.obj;
      }
      var key := ImeiString(imei);
      if key in table {
        obj := table[key];
      } else {
        obj := Register(imei);
        Append([SaveDid(imei)]);
      }
      Attach(ctx, obj);
    }

    lemma TableAt(key: bytes)
      requires Linked()
      ensures Abs().nextDevice == nextDevice && (key in table <==> key in Abs().registry)
      ensures key in table ==> Known(table[key], devices) && Abs().registry[key] == table[key].id
    {
    }

    method Login(ctx: Context, imei: bytes, seq0: byte, seq1: byte)
      requires Valid() && Live(ctx, conns) && |imei| == IMEI_LENGTH
      modifies this`table, this`devices, this`nextDevice, this`log
      modifies ctx`obj, devices.Values`isOnline, devices.Values`session
      ensures Valid() && conns == old(conns)
      ensures Abs() == Handle(old(Abs()), ctx.id, Request.Login(imei, seq0, seq1))
      ensures fresh(devices.Values - old(devices.Values))
    {
      hide Linked, Safe, Bind, ImeiString, Abs, DeviceObject.View, SetDevice, Send;
      ghost var s := Abs();
      AbsAt(ctx);
      SafeLogin(s, ctx.id, imei, seq0, seq1);
      var obj := BindTo(ctx, imei);
      DeviceAt(obj);
      Touch(obj, ctx);
      ghost var t := Abs();
      Respond(ctx, CMD_LOGIN, seq0, seq1);
      Append([Subscribe(obj.imei)]);
      SendTwice(t, Write(ctx.id, ResponseBytes(CMD_LOGIN, HEADER_SIZE, seq0, seq1)), Subscribe(obj.imei));
    }

    /** The response that alloc_rspMsg makes, of which the size of a header is sent. */
    method Respond(ctx: Context, cmd: byte, seq0: byte, seq1: byte)
      requires Linked() && Live(ctx, conns) && ResponseSize(cmd) != 0
      modifies this`log
      ensures Linked() && Abs() == Send(old(Abs()), [Write(ctx.id, ResponseBytes(cmd, ResponseSize(cmd), seq0, seq1))])
    {
      hide Linked, Abs, Send, ResponseBytes;
      var rsp := AllocRspMsg(cmd, seq0, seq1);
      FirstSeven(rsp[..], cmd, ResponseSize(cmd));
      assert rsp[..HEADER_SIZE] == rsp[..][..HEADER_SIZE];
      var _ := MsgSend(rsp[..HEADER_SIZE], ctx);
    }

    lemma DeviceAt(obj: DeviceObject)
      requires Linked() && Known(obj, devices)
      ensures obj.id in Abs().devices && Abs().devices[obj.id] == obj.View() && obj.View().imei == obj.imei
        && obj in devices.Values
    {
    }

    method Gps(ctx: Context, r: GpsRequest, now: int) returns (rc: int)
      requires Valid() && Live(ctx, conns)
      modifies this`log, devices.Values
      ensures Valid() && conns == old(conns) && devices == old(devices)
      ensures Abs() == Handle(old(Abs()), ctx.id, Request.Gps(r, now))
      ensures rc == if r.length < MIN_GPS_LENGTH || old(ctx.obj) == null then -1 else 0
    {
      hide Linked, Safe, Abs, DeviceObject.View, SetDevice, Send, Filter;
      ghost var s := Abs();
      AbsAt(ctx);
      SafeGps(s, ctx.id, r, now);
      if r.length < MIN_GPS_LENGTH || ctx.obj == null {
        return -1;
      }
      var obj := ctx.obj;
      DeviceAt(obj);
      Touch(obj, ctx);
      DeviceAt(obj);
      SetAt(s, obj.id, Touched(s.devices[obj.id], ctx.id));
      var outputs := FilterGps(obj, r, now);
      SetTwice(s, obj.id, Touched(s.devices[obj.id], ctx.id), Filter(Touched(s.devices[obj.id], ctx.id), r, now).0);
      Append(outputs);
      rc := 0;
    }

    method Ping(ctx: Context, seq0: byte, seq1: byte)
      requires Valid() && Live(ctx, conns)
      modifies this`log
      ensures Valid() && Abs() == Handle(old(Abs()), ctx.id, Request.Ping(seq0, seq1))
    {
      hide Linked, Safe, Abs, Send;
      AbsAt(ctx);
      SafeHandle(Abs(), ctx.id, Request.Ping(seq0, seq1));
      Respond(ctx, CMD_PING, seq0, seq1);
    }

    method Sms(ctx: Context, seq0: byte, seq1: byte)
      requires Valid() && Live(ctx, conns)
      modifies this`log
      ensures Valid() && Abs() == Handle(old(Abs()), ctx.id, Request.Sms(seq0, seq1))
    {
      hide Linked, Safe, Abs, Send;
      AbsAt(ctx);
      SafeHandle(Abs(), ctx.id, Request.Sms(seq0, seq1));
      Respond(ctx, CMD_SMS, seq0, seq1);
    }

    method Status(ctx: Context, seq0: byte, seq1: byte) returns (rc: int)
      requires Valid() && Live(ctx, conns)
      modifies this`log
      ensures Valid() && Abs() == Handle(old(Abs()), ctx.id, Request.Status(seq0, seq1))
      ensures rc == if ctx.obj == null then -1 else 0
    {
      hide Linked, Safe, Abs, Send;
      AbsAt(ctx);
      SafeHandle(Abs(), ctx.id, Request.Status(seq0, seq1));
      if ctx.obj == null {
        return -1;
      }
      Respond(ctx, CMD_STATUS, seq0, seq1);
      rc := 0;
    }

    method Alarm(ctx: Context, r: GpsRequest, kind: byte, seq0: byte, seq1: byte) returns (rc: int)
      requires Valid() && Live(ctx, conns)
      modifies this`log, devices.Values
      ensures Valid() && conns == old(conns) && devices == old(devices)
      ensures Abs() == Handle(old(Abs()), ctx.id, Request.Alarm(r, kind, seq0, seq1))
      ensures rc == if old(ctx.obj) == null then -1 else 0
    {
      hide Linked, Safe, Abs, DeviceObject.View, SetDevice, Send, ResponseBytes;
      ghost var s := Abs();
      AbsAt(ctx);
      SafeAlarm(s, ctx.id, r, kind, seq0, seq1);
      if ctx.obj == null {
        return -1;
      }
      var obj := ctx.obj;
      DeviceAt(obj);
      SetPosition(obj, r);
      RespondAlarm(ctx, seq0, seq1);
      AlarmSends(s, ctx.id, r, kind, seq0, seq1);
      if IsLocated(r) {
        Append([PushAlarm(obj.imei, kind)]);
      }
      rc := 0;
    }

    /** The response to an alarm, which alloc_msg makes. */
    method AlarmResponse(seq0: byte, seq1: byte) returns (frame: bytes)
      ensures frame == ResponseBytes(CMD_ALARM, HEADER_SIZE, seq0, seq1)
    {
      hide ResponseBytes;
      var rsp := AllocMsg(CMD_ALARM, HEADER_SIZE);
      rsp[5], rsp[6] := seq0, seq1;
      FirstSeven(rsp[..], CMD_ALARM, HEADER_SIZE);
      assert rsp[..] == rsp[..][..HEADER_SIZE];
      frame := rsp[..];
    }

    method RespondAlarm(ctx: Context, seq0: byte, seq1: byte)
      requires Linked() && Live(ctx, conns)
      modifies this`log
      ensures Linked() && Abs() == Send(old(Abs()), [Write(ctx.id, ResponseBytes(CMD_ALARM, HEADER_SIZE, seq0, seq1))])
    {
      hide Linked, Abs, Send, ResponseBytes;
      var frame := AlarmResponse(seq0, seq1);
      var _ := MsgSend(frame, ctx);
    }

    /** mc_operator and app_sendRspMsg2App */
    method Operator(ctx: Context, kind: byte, token: int, data: bytes)
      requires Valid() && Live(ctx, conns)
      modifies this`log
      ensures Valid() && Abs() == Handle(old(Abs()), ctx.id, Request.Operator(kind, token, data))
    {
      hide Linked, Safe, Abs, DeviceObject.View, Send;
      AbsAt(ctx);
      SafeOperator(Abs(), ctx.id, kind, token, data);
      if kind == 1 {
        var cmd, seqNo := TokenCmd(token), TokenSeq(token);
        if ctx.obj != null {
          DeviceAt(ctx.obj);
          Append([PushResponse(ctx.obj.imei, cmd, seqNo, data)]);
        }
      }
    }

    /** event_cb */
    method HandleEvent(ctx: Context, connected: bool, timeout: bool, eof: bool, error: bool)
      requires Valid() && Live(ctx, conns)
      modifies this`conns, ctx`canSend, devices.Values
      ensures Valid() && devices == old(devices) && conns.Values <= old(conns.Values)
      ensures Abs() == if !connected
        && (timeout || eof || error) then Step(old(Abs()), Event.Close(ctx.id)) else old(Abs())
    {
      if connected {
        return;
      }
      if timeout {
        CloseConn(ctx);
      } else if eof || error {
        CloseConn(ctx);
      }
    }

    /** Nothing can be sent any more, the device loses its session, and the context is freed. */
    method CloseConn(ctx: Context)
      requires Valid() && Live(ctx, conns)
      modifies this`conns, ctx`canSend, devices.Values
      ensures Valid() && devices == old(devices) && conns == old(conns) - {ctx.id}
      ensures Abs() == Step(old(Abs()), Event.Close(ctx.id))
    {
      hide Linked, Safe, Abs, DeviceObject.View, SetDevice;
      ghost var s := Abs();
      AbsAt(ctx);
      SafeClose(s, ctx.id);
      OnlySession(s, ctx.id);
      if ctx.obj != null {
        DeviceAt(ctx.obj);
        Drop(ctx.obj);
        SetAt(s, ctx.obj.id, s.devices[ctx.obj.id].(isOnline := false, session := None));
      }
      CloseOrder(s, ctx.id);
      NoSession(ctx);
      Free(ctx);
      ctx.canSend := false;
    }

    /** No device has a session on the context any more. */
    lemma NoSession(ctx: Context)
      requires Linked() && forall d :: d in Abs().devices ==> Abs().devices[d].session != Some(ctx.id)
      ensures forall d :: d in devices ==> devices[d].session != ctx
    {
      forall d | d in devices
        ensures devices[d].session != ctx
      {
        assert Abs().devices[d] == devices[d].View();
      }
    }

    /** The context stops being among the live ones. */
    ghost method Free(ctx: Context)
      requires Linked() && Live(ctx, conns) && forall d :: d in devices ==> devices[d].session != ctx
      modifies this`conns
      ensures Linked() && conns == old(conns) - {ctx.id} && ctx !in conns.Values
      ensures Abs() == old(Abs()).(conns := old(Abs()).conns - {ctx.id})
    {
      hide Ids, Views, TableLinked, Bindings;
      LinkedFree(conns, devices, ctx);
      BindingsRemove(conns, ctx.id);
      conns := conns - {ctx.id};
    }
  }

  /** In a safe state only the device that a connection is bound to can have its session there. */
  lemma OnlySession(s: State, c: nat)
    requires Safe(s) && c in s.conns
    ensures forall d :: d in s.devices && s.conns[c] != Some(d) ==> s.devices[d].session != Some(c)
  {
    hide ImeiString, IsShort;
    assert forall d :: d in s.devices ==> Sound(s, d);
  }

  lemma LinkedFree(conns: map<nat, Context>, devices: map<nat, DeviceObject>, ctx: Context)
    requires ConnsLinked(conns, devices) && DevicesLinked(conns, devices) && Live(ctx, conns)
    requires forall d :: d in devices ==> devices[d].session != ctx
    ensures ConnsLinked(conns - {ctx.id}, devices) && DevicesLinked(conns - {ctx.id}, devices)
    ensures ctx !in (conns - {ctx.id}).Values
  {
  }

  lemma BindingsRemove(conns: map<nat, Context>, c: nat)
    ensures Bindings(conns - {c}) == Bindings(conns) - {c}
  {
  }

  /** What an alarm sends, in the order in which it is sent. */
  lemma AlarmSends(s: State, c: nat, r: GpsRequest, kind: byte, seq0: byte, seq1: byte)
    requires Safe(s) && c in s.conns && s.conns[c].Some?
    ensures
      var d := s.conns[c].value;
      var t := SetDevice(s, d, s.devices[d].(fix := FixOf(r), cell := r.cell));
      var u := Send(t, [Write(c, ResponseBytes(CMD_ALARM, HEADER_SIZE, seq0, seq1))]);
      AlarmStep(s, c, r, kind, seq0, seq1) == if IsLocated(r) then Send(u, [PushAlarm(s.devices[d].imei, kind)]) else u
  {
    hide ResponseBytes;
    var w := Write(c, ResponseBytes(CMD_ALARM, HEADER_SIZE, seq0, seq1));
    assert [w] + [] == [w];
    var p := PushAlarm(s.devices[s.conns[c].value].imei, kind);
    assert s.log + [w] + [p] == s.log + ([w] + [p]);
  }

  /** The order in which a close updates the device and frees the context does not matter. */
  lemma CloseOrder(s: State, c: nat)
    requires Safe(s) && c in s.conns
    ensures
      var v := if s.conns[c].None? then s
               else SetDevice(s, s.conns[c].value, s.devices[s.conns[c].value].(isOnline := false, session := None));
      CloseStep(s, c) == v.(conns := v.conns - {c})
  {
  }

  lemma SetAt(s: State, d: nat, v: Device)
    ensures SetDevice(s, d, v).devices == s.devices[d := v] && SetDevice(s, d, v).conns == s.conns
  {
  }

  lemma SetTwice(s: State, d: nat, v: Device, w: Device)
    ensures SetDevice(SetDevice(s, d, v), d, w) == SetDevice(s, d, w)
  {
  }

  lemma SendTwice(s: State, a: Output, b: Output)
    ensures Send(Send(s, [a]), [b]) == Send(s, [a, b])
  {
    assert s.log + [a] + [b] == s.log + [a, b];
  }

  lemma BindingsSet(conns: map<nat, Context>, before: map<nat, Option<nat>>, c: nat)
    requires c in conns && before.Keys == conns.Keys
    requires forall e :: e in conns && e != c ==> before[e] == Binding(conns[e])
    ensures Bindings(conns) == before[c := Binding(conns[c])]
  {
  }

  lemma ViewsAdd(devices: map<nat, DeviceObject>, obj: DeviceObject)
    requires obj.id !in devices
    ensures Views(devices[obj.id := obj]) == Views(devices)[obj.id := obj.View()]
  {
    hide DeviceObject.View;
  }

  lemma IdsAdd(table: map<bytes, DeviceObject>, key: bytes, obj: DeviceObject)
    ensures Ids(table[key := obj]) == Ids(table)[key := obj.id]
  {
  }

  lemma LinkedRegister(conns: map<nat, Context>, devices: map<nat, DeviceObject>, table: map<bytes, DeviceObject>,
                       obj: DeviceObject, key: bytes)
    requires ConnsLinked(conns, devices) && DevicesLinked(conns, devices) && TableLinked(table, devices)
    requires obj.id !in devices && obj.session == null
    ensures ConnsLinked(conns, devices[obj.id := obj]) && DevicesLinked(conns, devices[obj.id := obj])
    ensures TableLinked(table[key := obj], devices[obj.id := obj])
  {
  }

  ghost function Bindings(conns: map<nat, Context>): (m: map<nat, Option<nat>>)
    reads conns.Values
    ensures m.Keys == conns.Keys && forall c :: c in conns ==> m[c] == Binding(conns[c])
  {
    map c | c in conns :: Binding(conns[c])
  }

  ghost function Views(devices: map<nat, DeviceObject>): (m: map<nat, Device>)
    reads devices.Values
    ensures m.Keys == devices.Keys && forall d :: d in devices ==> m[d] == devices[d].View()
  {
    map d | d in devices :: devices[d].View()
  }

  ghost function Ids(table: map<bytes, DeviceObject>): (m: map<bytes, nat>)
    ensures m.Keys == table.Keys && forall k :: k in table ==> m[k] == table[k].id
  {
    map k | k in table :: table[k].id
  }

  lemma BindingsAdd(conns: map<nat, Context>, n: nat, ctx: Context)
    requires n !in conns
    ensures Bindings(conns[n := ctx]) == Bindings(conns)[n := Binding(ctx)]
  {
  }

  /** The views after a change of one device object. */
  lemma ViewsSet(devices: map<nat, DeviceObject>, before: map<nat, Device>, d: nat)
    requires d in devices && before.Keys == devices.Keys
    requires forall e :: e in devices && e != d ==> before[e] == devices[e].View()
    ensures Views(devices) == before[d := devices[d].View()]
  {
  }
}
