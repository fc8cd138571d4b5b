/** The app side: a command for an IMEI is packed into an operator request and sent to the device's session. */
module Commands {
  import opened Bytes
  import opened Codecs
  import opened Frames
  import opened Devices
  import opened Session
  import opened Server

  /** `sizeof(MC_MSG_OPERATOR_REQ)`: header, type, token */
  const OPERATOR_SIZE: nat := 12

  /** An operator request; the sequence number in the header is not set. */
  ghost predicate Packed(f: bytes, token: int, data: bytes) {
    && Built(f, CMD_OPERAT, OPERATOR_SIZE + |data|) && f[7] == 1
    && FromLittleEndian(f[8], f[9], f[10], f[11]) == token && f[OPERATOR_SIZE..] == data
  }

  /** The message that app_sendRawData2TK115 builds. */
  method PackCommand(data: bytes, token: int) returns (req: array<byte>)
    requires -0x8000_0000 <= token < 0x8000_0000
    ensures fresh(req) && Packed(req[..], token, data)
  {
    req := AllocMsg(CMD_OPERAT, OPERATOR_SIZE + |data|);
    ghost var before := req[..HEADER_SIZE];
    var t := LittleEndian(token);
    LittleEndianRoundTrip(token);
    req[7] := 1;
    req[8], req[9], req[10], req[11] := t[0], t[1], t[2], t[3];
    forall i | 0 <= i < |data| {
      req[OPERATOR_SIZE + i] := data[i];
    }
    assert req[..HEADER_SIZE] == before;
    BuiltHeader(before, req[..]);
  }

  lemma BuiltHeader(before: bytes, f: bytes)
    requires |before| == HEADER_SIZE <= |f| && f[..HEADER_SIZE] == before && Signed(before) && before[2] == CMD_OPERAT
    requires before[3] as int * 0x100 + before[4] == (|f| - PREFIX_SIZE) % 0x1_0000
    ensures Built(f, CMD_OPERAT, |f|)
  {
    assert forall i :: 0 <= i < HEADER_SIZE ==> f[i] == before[i];
  }

  /** The request is a frame exactly when the data leaves its length in sixteen bits. */
  lemma CommandFrame(f: bytes, token: int, data: bytes)
    requires Packed(f, token, data)
    ensures IsFrame(f) <==> |data| < 0x1_0000 - 7
  {
    BuiltIsFrame(f, CMD_OPERAT, OPERATOR_SIZE + |data|);
  }

  // The message of the app: header, command, length, sequence number, all in network order

  function Field(data: bytes, at: nat): (n: nat)
    requires at + 2 <= |data|
    ensures n < 0x1_0000
  {
    data[at] as int * 0x100 + data[at + 1]
  }

  const TOPIC_PREFIX: nat := 8

  /** The first slash from a position on, or the end of the topic. */
  function SlashFrom(topic: bytes, at: nat): (n: nat)
    requires at <= |topic|
    ensures at <= n <= |topic| && (n < |topic| ==> topic[n] == SLASH)
    ensures forall i :: at <= i < n ==> topic[i] != SLASH
    decreases |topic| - at
  {
    if at == |topic| || topic[at] == SLASH then at else SlashFrom(topic, at + 1)
  }

  /** The IMEI in the topic `app2dev/<IMEI>/...` */
  function TopicKey(topic: bytes): bytes
    requires |topic| >= TOPIC_PREFIX
  {
    topic[TOPIC_PREFIX..SlashFrom(topic, TOPIC_PREFIX)]
  }

  predicate IsCommand(topic: bytes, data: bytes)
    requires |topic| >= TOPIC_PREFIX
  {
    |TopicKey(topic)| <= 2 * IMEI_LENGTH && |data| >= 8 && Field(data, 0) == 0xAA55 && Field(data, 4) + 6 == |data|
  }

  /**
   * The payload has the fields that the checks look at, and a sequence number if it passes them. An empty payload is
   * a null pointer, which the code refuses.
   */
  predicate Checkable(data: bytes) {
    data != [] ==>
      && |data| >= 2
      && (Field(data, 0) == 0xAA55 ==> |data| >= 6 && (Field(data, 4) + 6 == |data| ==> |data| >= 8))
  }

  /** The event that an app message stands for. */
  function CommandEvent(topic: bytes, data: bytes): (e: Event)
    requires |topic| >= TOPIC_PREFIX && |data| >= 8
    ensures Possible(e)
  {
    AppCommand(TopicKey(topic), Short(Field(data, 2)), Short(Field(data, 6)), data[8..])
  }

  /** app_sendRawData2TK115 */
  method SendRawData(server: ServerState, obj: DeviceObject, data: bytes, cmd: int, seqNo: int)
    requires server.Valid() && Known(obj, server.devices) && IsShort(cmd) && IsShort(seqNo)
    modifies server`log
    ensures server.Valid()
    ensures server.Abs() == AppStep(old(server.Abs()), ImeiString(obj.imei), cmd, seqNo, data)
  {
    hide Safe, ServerState.Linked, ServerState.Abs, ImeiString, Token, Packed, Send;
    Registered(server, obj);
    SafeApp(server.Abs(), ImeiString(obj.imei), cmd, seqNo, data);
    if !obj.isOnline {
      return;
    }
    var token := Token(cmd, seqNo);
    var req := PackCommand(data, token);
    PackedParts(req[..], token, data);
    // mc_msg_send: the device reads the token and the data out of these bytes
    server.Append([Command(obj.session.id, FromLittleEndian(req[8], req[9], req[10], req[11]), req[OPERATOR_SIZE..])]);
  }

  lemma PackedParts(f: bytes, token: int, data: bytes)
    requires Packed(f, token, data)
    ensures |f| >= OPERATOR_SIZE && FromLittleEndian(f[8], f[9], f[10], f[11]) == token && f[OPERATOR_SIZE..] == data
  {
  }

  /** A known device is registered under its own IMEI, and online exactly when its session is a live context. */
  lemma Registered(server: ServerState, obj: DeviceObject)
    requires server.Valid() && Known(obj, server.devices)
    ensures
      var s := server.Abs();
      && Safe(s) && ImeiString(obj.imei) in s.registry && s.registry[ImeiString(obj.imei)] == obj.id
      && obj.id in s.devices && s.devices[obj.id].isOnline == obj.isOnline
      && (obj.isOnline ==> obj.session != null && Live(obj.session, server.conns)
                           && s.devices[obj.id].session == Some(obj.session.id))
  {
    hide ImeiString, IsShort;
    server.DeviceAt(obj);
    assert Sound(server.Abs(), obj.id);
  }

  /** Searches for that slash. */
  method FindSlash(topic: bytes, at: nat) returns (n: nat)
    requires at <= |topic|
    ensures n == SlashFrom(topic, at)
  {
    n := at;
    while n < |topic| && topic[n] != SLASH
      invariant at <= n <= |topic| && SlashFrom(topic, n) == SlashFrom(topic, at)
    {
      n := n + 1;
    }
  }

  /** app_handleApp2devMsg: the topic has a slash behind the IMEI, and the payload for a device can be checked. */
  method HandleApp2devMsg(server: ServerState, topic: bytes, data: bytes) returns (rc: int)
    requires server.Valid()
    requires |topic| >= TOPIC_PREFIX && SlashFrom(topic, TOPIC_PREFIX) < |topic|
    requires |TopicKey(topic)| <= 2 * IMEI_LENGTH && TopicKey(topic) in server.table ==> Checkable(data)
    modifies server`log
    ensures server.Valid()
    ensures rc == if IsCommand(topic, data) && TopicKey(topic) in server.table then 0 else -1
    ensures server.Abs() ==
      if IsCommand(topic, data) then Step(old(server.Abs()), CommandEvent(topic, data)) else old(server.Abs())
  {
    hide Safe, ServerState.Linked, ServerState.Abs, ImeiString, SlashFrom;
    var end := FindSlash(topic, TOPIC_PREFIX);
    if end - TOPIC_PREFIX > 2 * IMEI_LENGTH {
      return -1;
    }
    var key := topic[TOPIC_PREFIX..end];
    server.TableAt(key);
    if key !in server.table {
      return -1;
    }
    if data == [] {
      return -1;
    }
    if Field(data, 0) != 0xAA55 {
      return -1;
    }
    if Field(data, 4) + 6 != |data| {
      return -1;
    }
    var obj := server.table[key];
    OwnKey(server, key);
    SendRawData(server, obj, data[8..], Short(Field(data, 2)), Short(Field(data, 6)));
    rc := 0;
  }

  lemma OwnKey(server: ServerState, key: bytes)
    requires server.Valid() && key in server.table
    ensures Known(server.table[key], server.devices) && ImeiString(server.table[key].imei) == key
  {
    hide ImeiString, IsShort;
    server.TableAt(key);
    server.DeviceAt(server.table[key]);
  }

  /** A device of leancloud_onGetOBJ: rebuilt, added to the table and subscribed. The server has no connection yet. */
  method Reload(server: ServerState, key: bytes)
    requires server.Valid() && server.conns == map[] && |key| >= 2 * IMEI_LENGTH
    modifies server
    ensures server.Valid() && server.conns == map[]
    ensures server.Abs() == Step(old(server.Abs()), Event.Reload(key))
  {
    hide Safe, ImeiString, Imei, DeviceObject.View, Step;
    hide Send, ReloadStep, ServerState.Valid, ServerState.Abs, ServerState.Linked;
    ghost var s := server.Abs();
    Unconnected(server);
    ReloadIs(s, key);
    var imei := GetImei(key);
    var obj := new DeviceObject(imei[..], server.nextDevice);
    Replace(server, obj, ImeiString(imei[..]));
    server.Append([Subscribe(imei[..])]);
    Settled(server);
  }

  lemma Unconnected(server: ServerState)
    requires server.Valid() && server.conns == map[]
    ensures Safe(server.Abs()) && server.Abs().conns == map[] && server.nextDevice !in server.devices
    ensures server.Abs().nextDevice == server.nextDevice
  {
    hide Safe;
    server.NewNumbers();
  }

  lemma Settled(server: ServerState)
    requires server.Linked() && Safe(server.Abs())
    ensures server.Valid()
  {
  }

  lemma ReloadIs(s: State, key: bytes)
    requires Safe(s) && s.conns == map[] && |key| >= 2 * IMEI_LENGTH
    ensures Safe(Step(s, Event.Reload(key)))
    ensures
      var imei := Imei(key);
      var name, d := ImeiString(imei), s.nextDevice;
      var kept := if name in s.registry then s.devices - {s.registry[name]} else s.devices;
      Step(s, Event.Reload(key))
      == Send(s.(devices := kept[d := NewDevice(imei)], registry := s.registry[name := d], nextDevice := d + 1),
              [Subscribe(imei)])
  {
    hide Safe, ImeiString, Imei;
    SafeStep(s, Event.Reload(key));
  }

  /** mc_obj_add: g_hash_table_insert frees the object that was registered under the same text. */
  method Replace(server: ServerState, obj: DeviceObject, name: bytes)
    requires server.Valid() && server.conns == map[] && obj.id == server.nextDevice && obj.id !in server.devices
    requires obj.session == null
    modifies server`table, server`devices, server`nextDevice
    ensures server.Linked() && server.conns == map[]
    ensures
      var s := old(server.Abs());
      var kept := if name in s.registry then s.devices - {s.registry[name]} else s.devices;
      server.Abs() == s.(devices := kept[obj.id := obj.View()], registry := s.registry[name := obj.id],
                         nextDevice := obj.id + 1)
  {
    hide Safe, Bindings, Views, Ids, ConnsLinked, DevicesLinked, TableLinked, DeviceObject.View;
    ghost var kept := Replaced(server, obj, name);
    server.devices := kept[obj.id := obj];
    server.table := server.table[name := obj];
    server.nextDevice := server.nextDevice + 1;
  }

  /** The objects that are kept, and what they stand for together with the new one. */
  lemma Replaced(server: ServerState, obj: DeviceObject, name: bytes) returns (kept: map<nat, DeviceObject>)
    requires server.Valid() && server.conns == map[] && obj.id !in server.devices && obj.session == null
    ensures
      var devices, table := kept[obj.id := obj], server.table[name := obj];
      && ConnsLinked(map[], devices) && DevicesLinked(map[], devices) && TableLinked(table, devices)
    ensures
      var s := server.Abs();
      && Views(kept[obj.id := obj])
        == (if name in s.registry then s.devices - {s.registry[name]} else s.devices)[obj.id := obj.View()]
      && Ids(server.table[name := obj]) == s.registry[name := obj.id]
  {
    hide Safe, ImeiString, DeviceObject.View, Bindings, Views, Ids, ConnsLinked, DevicesLinked, TableLinked;
    server.TableAt(name);
    kept := if name in server.table then server.devices - {server.table[name].id} else server.devices;
    LinkedWithout(server, name, kept);
    var others := server.table - {name};
    LinkedRegister(map[], kept, others, obj, name);
    ViewsAdd(kept, obj);
    IdsAdd(server.table, name, obj);
    assert server.table[name := obj] == others[name := obj];
  }

  /** The objects without the one registered under a text: the rest of the table does not refer to it. */
  lemma LinkedWithout(server: ServerState, name: bytes, kept: map<nat, DeviceObject>)
    requires server.Valid() && server.conns == map[]
    requires kept == if name in server.table then server.devices - {server.table[name].id} else server.devices
    ensures ConnsLinked(server.conns, kept) && DevicesLinked(server.conns, kept)
      && TableLinked(server.table - {name}, kept)
    ensures
      var views := Views(server.devices);
      Views(kept) == if name in server.table then views - {server.table[name].id} else views
  {
    hide Safe, ImeiString, IsShort, DeviceObject.View;
    forall k | k in server.table && k != name
      ensures Known(server.table[k], kept)
    {
      OtherDevice(server, k, name);
    }
  }

  lemma OtherDevice(server: ServerState, k: bytes, name: bytes)
    requires server.Valid() && k in server.table && k != name
    ensures Known(server.table[k], server.devices)
    ensures name in server.table ==> server.table[k].id != server.table[name].id
  {
    hide Safe, ImeiString, IsShort;
    OwnKey(server, k);
    if name in server.table {
      OwnKey(server, name);
    }
  }
}
