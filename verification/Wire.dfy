/**
 * Device messages as their senders write them: the fields in the order of the structs, packed, in network order. The
 * handlers find every field where the sender put it.
 */
module Wire {
  import opened Bytes
  import opened Codecs
  import opened Frames
  import opened Devices
  import opened Session
  import opened Messages
  import opened Commands

  /** The report that GPS, alarm, status and text messages start with. */
  datatype Report = Report(timestamp: int, lat: int, lon: int, speed: byte, course: int, cell: bytes, location: byte)

  /** What follows the header; `more` is whatever a sender adds. */
  datatype Body =
    | LoginBody(imei: bytes, language: byte, locale: byte)
    | GpsBody(report: Report, status: int, voltage: int, rxl: int, analog1: int, analog2: int)
    | PingBody(status: int)
    | AlarmBody(report: Report, kind: byte)
    | StatusBody(report: Report, kind: byte, deviceTime: int, status: int)
    | SmsBody(report: Report, telephone: bytes, text: bytes)
    | OperatorBody(kind: byte, token: int, data: bytes)
    | DataBody(data: bytes)

  predicate IsWord(n: int) { 0 <= n < 0x1_0000 }

  predicate IsLong(n: int) { 0 <= n < 0x1_0000_0000 }

  predicate ProperReport(r: Report) {
    IsLong(r.timestamp) && IsLong(r.lat) && IsLong(r.lon) && IsWord(r.course) && |r.cell| == 9
  }

  predicate ProperBody(b: Body) {
    match b
    case LoginBody(imei, _, _) => |imei| == 8
    case GpsBody(r, status, voltage, rxl, analog1, analog2) =>
      ProperReport(r) && IsWord(status) && IsWord(voltage) && IsWord(rxl) && IsWord(analog1) && IsWord(analog2)
    case PingBody(status) => IsWord(status)
    case AlarmBody(r, _) => ProperReport(r)
    case StatusBody(r, _, deviceTime, status) => ProperReport(r) && IsLong(deviceTime) && IsWord(status)
    case SmsBody(r, telephone, _) => ProperReport(r) && |telephone| == 21
    case OperatorBody(_, token, _) => -0x8000_0000 <= token < 0x8000_0000
    case DataBody(_) => true
  }

  /** Network order: the most significant byte first. */
  function Word(n: int): (bs: bytes)
    requires IsWord(n)
    ensures |bs| == 2
  {
    [n / 0x100, n % 0x100]
  }

  function Long(n: int): (bs: bytes)
    requires IsLong(n)
    ensures |bs| == 4
  {
    [n / 0x100_0000, n / 0x1_0000 % 0x100, n / 0x100 % 0x100, n % 0x100]
  }

  /** The order of a little-endian host, which the token is never taken out of; two's complement. */
  function Host(n: int): (bs: bytes)
    requires -0x8000_0000 <= n < 0x8000_0000
    ensures |bs| == 4
  {
    var u := if n < 0 then n + 0x1_0000_0000 else n;
    [u % 0x100, u / 0x100 % 0x100, u / 0x1_0000 % 0x100, u / 0x100_0000]
  }

  function ReportText(r: Report): (bs: bytes)
    requires ProperReport(r)
    ensures |bs| == 25
  {
    Long(r.timestamp) + Long(r.lat) + Long(r.lon) + [r.speed] + Word(r.course) + r.cell + [r.location]
  }

  function BodyText(b: Body): bytes
    requires ProperBody(b)
  {
    match b
    case LoginBody(imei, language, locale) => imei + [language, locale]
    case GpsBody(r, status, voltage, rxl, analog1, analog2) =>
      ReportText(r) + (Word(status) + Word(voltage) + Word(rxl) + Word(analog1) + Word(analog2))
    case PingBody(status) => Word(status)
    case AlarmBody(r, kind) => ReportText(r) + [kind]
    case StatusBody(r, kind, deviceTime, status) => ReportText(r) + ([kind] + Long(deviceTime) + Word(status))
    case SmsBody(r, telephone, text) => ReportText(r) + (telephone + text)
    case OperatorBody(kind, token, data) => [kind] + Host(token) + data
    case DataBody(data) => data
  }

  function CommandOf(b: Body): byte {
    match b
    case LoginBody(_, _, _) => 0x01
    case GpsBody(_, _, _, _, _, _) => 0x02
    case PingBody(_) => 0x03
    case AlarmBody(_, _) => 0x04
    case StatusBody(_, _, _, _) => 0x05
    case SmsBody(_, _, _) => 0x06
    case OperatorBody(_, _, _) => 0x80
    case DataBody(_) => 0x81
  }

  /** The seven bytes of the header: signature, command, length, sequence number. */
  function HeaderText(cmd: byte, length: int, seq0: byte, seq1: byte): (bs: bytes)
    requires IsWord(length)
    ensures |bs| == 7
  {
    [0x67, 0x67, cmd] + Word(length) + [seq0, seq1]
  }

  /** Memory holds these bytes from a position on. */
  predicate Holds(m: Memory, p: nat, bs: bytes) {
    Slice(m, p, |bs|) == bs
  }

  /** What the report says, and what the code takes for its length. */
  function Reported(r: Report, length: int): GpsRequest
    requires IsWord(length)
  {
    var swapped := length % 0x100 * 0x100 + length / 0x100;
    GpsRequest(swapped, r.timestamp, r.lat, r.lon, r.speed, r.course, r.cell, r.location)
  }

  /** What a message asks for. The data of an operator response reach as far as the length says, whatever that is. */
  function Asked(b: Body, length: int, seq0: byte, seq1: byte, m: Memory, p: nat, now: int): Request
    requires ProperBody(b) && IsWord(length)
  {
    match b
    case LoginBody(imei, _, _) => Request.Login(imei, seq0, seq1)
    case GpsBody(r, _, _, _, _, _) => Request.Gps(Reported(r, length), now)
    case PingBody(_) => Request.Ping(seq0, seq1)
    case AlarmBody(r, kind) => Request.Alarm(Reported(r, length), kind, seq0, seq1)
    case StatusBody(_, _, _, _) => Request.Status(seq0, seq1)
    case SmsBody(_, _, _) => Request.Sms(seq0, seq1)
    case OperatorBody(kind, token, _) =>
      Request.Operator(kind, token, if length < 5 then [] else Slice(m, p + 12, length - 5))
    case DataBody(_) => Request.Data
  }

  lemma Parts(m: Memory, p: nat, a: bytes, b: bytes)
    requires Holds(m, p, a + b)
    ensures Holds(m, p, a) && Holds(m, p + |a|, b)
  {
    var s := Slice(m, p, |a + b|);
    assert forall i :: 0 <= i < |a| ==> m(p + i) == s[i] == a[i];
    assert forall i :: 0 <= i < |b| ==> m(p + |a| + i) == s[|a| + i] == b[i];
  }

  lemma Single(m: Memory, p: nat, c: byte)
    requires Holds(m, p, [c])
    ensures m(p) == c
  {
    assert Slice(m, p, 1)[0] == m(p);
  }

  lemma WordRead(m: Memory, p: nat, n: int)
    requires IsWord(n) && Holds(m, p, Word(n))
    ensures U16(m, p) == n && m(p) == n / 0x100 && m(p + 1) == n % 0x100
  {
    var s := Slice(m, p, 2);
    assert s[0] == m(p) && s[1] == m(p + 1);
  }

  lemma LongRead(m: Memory, p: nat, n: int)
    requires IsLong(n) && Holds(m, p, Long(n))
    ensures U32(m, p) == n
  {
    var s := Slice(m, p, 4);
    assert s[0] == m(p) && s[1] == m(p + 1) && s[2] == m(p + 2) && s[3] == m(p + 3);
    LongValue(n);
  }

  lemma LongValue(n: int)
    requires IsLong(n)
    ensures (n / 0x100_0000 * 0x100 + n / 0x1_0000 % 0x100) * 0x1_0000 + (n / 0x100 % 0x100 * 0x100 + n % 0x100) == n
  {
    var b := n / 0x100;
    var c := b / 0x100;
    assert c == n / 0x1_0000 && c / 0x100 == n / 0x100_0000;
    assert n == b * 0x100 + n % 0x100 && b == c * 0x100 + b % 0x100 && c == c / 0x100 * 0x100 + c % 0x100;
  }

  lemma HostRead(m: Memory, p: nat, n: int)
    requires -0x8000_0000 <= n < 0x8000_0000 && Holds(m, p, Host(n))
    ensures FromLittleEndian(m(p), m(p + 1), m(p + 2), m(p + 3)) == n
  {
    var s := Slice(m, p, 4);
    assert s[0] == m(p) && s[1] == m(p + 1) && s[2] == m(p + 2) && s[3] == m(p + 3);
    LongValue(if n < 0 then n + 0x1_0000_0000 else n);
  }

  lemma HeaderRead(m: Memory, p: nat, cmd: byte, length: int, seq0: byte, seq1: byte)
    requires IsWord(length) && Holds(m, p, HeaderText(cmd, length, seq0, seq1))
    ensures m(p + 2) == cmd && U16(m, p + 3) == length && m(p + 5) == seq0 && m(p + 6) == seq1
    ensures m(p + 3) == length / 0x100 && m(p + 4) == length % 0x100
  {
    var s := Slice(m, p, 7);
    assert forall i :: 0 <= i < 7 ==> s[i] == m(p + i);
    assert s[2] == cmd && s[3] == Word(length)[0] && s[4] == Word(length)[1] && s[5] == seq0 && s[6] == seq1;
  }

  lemma ReportRead(m: Memory, p: nat, r: Report)
    requires ProperReport(r) && Holds(m, p, ReportText(r))
    ensures U32(m, p) == r.timestamp && U32(m, p + 4) == r.lat && U32(m, p + 8) == r.lon && m(p + 12) == r.speed
    ensures U16(m, p + 13) == r.course && Slice(m, p + 15, 9) == r.cell && m(p + 24) == r.location
  {
    hide U16, U32, Word, Long, Holds;
    var t := Long(r.timestamp) + Long(r.lat) + Long(r.lon) + [r.speed] + Word(r.course) + r.cell;
    Parts(m, p, t, [r.location]);
    Single(m, p + 24, r.location);
    Parts(m, p, Long(r.timestamp) + Long(r.lat) + Long(r.lon) + [r.speed] + Word(r.course), r.cell);
    CellRead(m, p + 15, r.cell);
    Parts(m, p, Long(r.timestamp) + Long(r.lat) + Long(r.lon) + [r.speed], Word(r.course));
    WordRead(m, p + 13, r.course);
    Parts(m, p, Long(r.timestamp) + Long(r.lat) + Long(r.lon), [r.speed]);
    Single(m, p + 12, r.speed);
    Parts(m, p, Long(r.timestamp) + Long(r.lat), Long(r.lon));
    LongRead(m, p + 8, r.lon);
    Parts(m, p, Long(r.timestamp), Long(r.lat));
    LongRead(m, p + 4, r.lat);
    LongRead(m, p, r.timestamp);
  }

  lemma CellRead(m: Memory, p: nat, bs: bytes)
    requires Holds(m, p, bs)
    ensures Slice(m, p, |bs|) == bs
  {
  }

  /** Every report is found where it was written. */
  lemma PositionRead(m: Memory, p: nat, cmd: byte, length: int, seq0: byte, seq1: byte, r: Report)
    requires IsWord(length) && ProperReport(r)
    requires Holds(m, p, HeaderText(cmd, length, seq0, seq1)) && Holds(m, p + 7, ReportText(r))
    ensures Position(m, p) == Reported(r, length)
  {
    hide U16, U32, Holds, ReportText, HeaderText;
    HeaderRead(m, p, cmd, length, seq0, seq1);
    ReportRead(m, p + 7, r);
  }

  /**
   * A message is decoded into exactly what its sender wrote: the fields of its struct, at their own offsets and in
   * their own byte order, whatever the length field says and whatever follows in memory.
   */
  lemma MessageRead(m: Memory, p: nat, b: Body, length: int, seq0: byte, seq1: byte, now: int)
    requires IsWord(length) && ProperBody(b)
    requires Holds(m, p, HeaderText(CommandOf(b), length, seq0, seq1) + BodyText(b))
    ensures Decode(m, p, now) == Asked(b, length, seq0, seq1, m, p, now)
  {
    hide Holds, HeaderText, ReportText, Position, U16, FromLittleEndian, Long, Word, Host;
    Parts(m, p, HeaderText(CommandOf(b), length, seq0, seq1), BodyText(b));
    HeaderRead(m, p, CommandOf(b), length, seq0, seq1);
    match b
    case LoginBody(imei, language, locale) =>
      Parts(m, p + 7, imei, [language, locale]);
      CellRead(m, p + 7, imei);
    case GpsBody(r, status, voltage, rxl, analog1, analog2) =>
      Parts(m, p + 7, ReportText(r), Word(status) + Word(voltage) + Word(rxl) + Word(analog1) + Word(analog2));
      PositionRead(m, p, 0x02, length, seq0, seq1, r);
    case AlarmBody(r, kind) =>
      Parts(m, p + 7, ReportText(r), [kind]);
      PositionRead(m, p, 0x04, length, seq0, seq1, r);
      Single(m, p + 32, kind);
    case OperatorBody(kind, token, data) =>
      Parts(m, p + 7, [kind] + Host(token), data);
      Parts(m, p + 7, [kind], Host(token));
      Single(m, p + 7, kind);
      HostRead(m, p + 8, token);
    case _ =>
  }

  /** What an operator response carries, with the two bytes behind it: the code takes two bytes more than were sent. */
  lemma OperatorTail(m: Memory, p: nat, kind: byte, token: int, data: bytes, seq0: byte, seq1: byte, now: int)
    requires -0x8000_0000 <= token < 0x8000_0000 && |data| + 7 < 0x1_0000
    requires Holds(m, p, HeaderText(0x80, |data| + 7, seq0, seq1) + ([kind] + Host(token) + data))
    ensures Decode(m, p, now) == Request.Operator(kind, token, data + [m(p + 12 + |data|), m(p + 13 + |data|)])
  {
    hide Holds, HeaderText, Host, Decode;
    var b := OperatorBody(kind, token, data);
    MessageRead(m, p, b, |data| + 7, seq0, seq1, now);
    Parts(m, p, HeaderText(0x80, |data| + 7, seq0, seq1), BodyText(b));
    Parts(m, p + 7, [kind] + Host(token), data);
    CellRead(m, p + 12, data);
    var s := Slice(m, p + 12, |data| + 2);
    assert forall i :: 0 <= i < |data| ==> s[i] == m(p + 12 + i) == Slice(m, p + 12, |data|)[i];
    assert s == data + [m(p + 12 + |data|), m(p + 13 + |data|)];
  }

  /** A message whose length counts from the sequence number on is a frame. */
  lemma MessageIsFrame(cmd: byte, seq0: byte, seq1: byte, body: bytes)
    requires |body| + 2 < 0x1_0000
    ensures IsFrame(HeaderText(cmd, |body| + 2, seq0, seq1) + body)
  {
    var f := HeaderText(cmd, |body| + 2, seq0, seq1) + body;
    assert f[0] == 0x67 && f[1] == 0x67 && f[3] == Word(|body| + 2)[0] && f[4] == Word(|body| + 2)[1];
  }

  /** A frame of any other command asks for nothing. */
  lemma OtherCommand(m: Memory, p: nat, cmd: byte, length: int, seq0: byte, seq1: byte, now: int)
    requires IsWord(length) && Holds(m, p, HeaderText(cmd, length, seq0, seq1))
    requires cmd == 0 || 6 < cmd < 0x80 || 0x81 < cmd
    ensures Decode(m, p, now) == Request.Unknown
  {
    hide Holds, HeaderText, U16;
    HeaderRead(m, p, cmd, length, seq0, seq1);
  }

  // Between the app and the device

  /** Two's complement. */
  function Unsigned(n: int): (u: int)
    requires IsShort(n)
    ensures IsWord(u)
  {
    if n < 0 then n + 0x1_0000 else n
  }

  /** A message of the app: header, command, length of what follows it, sequence number, data. */
  function AppText(cmd: int, seqNo: int, data: bytes): bytes
    requires IsShort(cmd) && IsShort(seqNo) && |data| + 2 < 0x1_0000
  {
    [0xAA, 0x55] + Word(Unsigned(cmd)) + Word(|data| + 2) + Word(Unsigned(seqNo)) + data
  }

  /** The topic of the messages for a device: eight characters, its IMEI, a slash and the rest. */
  predicate TopicOf(topic: bytes, key: bytes) {
    && |topic| > 8 + |key| && topic[8..8 + |key|] == key && topic[8 + |key|] == 47
    && forall i :: 0 <= i < |key| ==> key[i] != 47
  }

  lemma TopicRead(topic: bytes, key: bytes)
    requires TopicOf(topic, key)
    ensures TopicKey(topic) == key
  {
    hide SlashFrom;
    forall j | 8 <= j < 8 + |key|
      ensures topic[j] != 47
    {
      assert topic[j] == topic[8..8 + |key|][j - 8];
    }
  }

  lemma WordFields(t: bytes, at: nat, n: int)
    requires IsWord(n) && at + 2 <= |t| && t[at..at + 2] == Word(n)
    ensures Field(t, at) == n
  {
    assert t[at] == t[at..at + 2][0] && t[at + 1] == t[at..at + 2][1];
  }

  lemma AppFields(cmd: int, seqNo: int, data: bytes)
    requires IsShort(cmd) && IsShort(seqNo) && |data| + 2 < 0x1_0000
    ensures var t := AppText(cmd, seqNo, data);
      && |t| == 8 + |data| && t[8..] == data && t[0] == 0xAA && t[1] == 0x55
      && Field(t, 2) == Unsigned(cmd) && Field(t, 4) == |data| + 2 && Field(t, 6) == Unsigned(seqNo)
  {
    hide Word, Field, Unsigned;
    var t := AppText(cmd, seqNo, data);
    assert t[2..4] == Word(Unsigned(cmd)) && t[4..6] == Word(|data| + 2) && t[6..8] == Word(Unsigned(seqNo));
    WordFields(t, 2, Unsigned(cmd));
    WordFields(t, 4, |data| + 2);
    WordFields(t, 6, Unsigned(seqNo));
  }

  /** A message of the app is the command that its fields say, for the device whose IMEI the topic names. */
  lemma AppRead(topic: bytes, key: bytes, cmd: int, seqNo: int, data: bytes)
    requires TopicOf(topic, key) && IsShort(cmd) && IsShort(seqNo) && |data| + 2 < 0x1_0000
    ensures var t := AppText(cmd, seqNo, data);
      && (IsCommand(topic, t) <==> |key| <= 16)
      && CommandEvent(topic, t) == AppCommand(key, cmd, seqNo, data)
  {
    hide SlashFrom, AppText;
    TopicRead(topic, key);
    AppFields(cmd, seqNo, data);
  }

  /** Conversely, only such messages are commands. */
  lemma AppWritten(topic: bytes, key: bytes, t: bytes) returns (cmd: int, seqNo: int, data: bytes)
    requires TopicOf(topic, key) && IsCommand(topic, t)
    ensures |key| <= 16 && IsShort(cmd) && IsShort(seqNo) && |data| + 2 < 0x1_0000 && t == AppText(cmd, seqNo, data)
  {
    hide SlashFrom;
    TopicRead(topic, key);
    cmd, seqNo, data := Short(Field(t, 2)), Short(Field(t, 6)), t[8..];
    FieldWord(t, 2);
    FieldWord(t, 4);
    FieldWord(t, 6);
    Sixteen(t[0], t[1]);
    assert t == t[..2] + t[2..4] + t[4..6] + t[6..8] + t[8..];
    assert t == AppText(cmd, seqNo, data);
  }

  lemma FieldWord(t: bytes, at: nat)
    requires at + 2 <= |t|
    ensures t[at..at + 2] == Word(Field(t, at)) && Unsigned(Short(Field(t, at))) == Field(t, at)
  {
  }

  lemma Sixteen(high: byte, low: byte)
    requires high as int * 0x100 + low == 0xAA55
    ensures high == 0xAA && low == 0x55
  {
  }

  /** What the device gets: an operator message that holds the token and the data of the command. */
  lemma CommandWritten(f: bytes, token: int, data: bytes)
    requires Packed(f, token, data) && |data| + 7 < 0x1_0000 && -0x8000_0000 <= token < 0x8000_0000
    ensures f == HeaderText(0x80, |data| + 7, f[5], f[6]) + BodyText(OperatorBody(1, token, data))
  {
    hide Host, HeaderText;
    assert f == f[..7] + ([f[7]] + f[8..12] + f[12..]);
    HeaderWritten(f, |data| + 12);
    HostWritten(f[8], f[9], f[10], f[11], token);
    assert f[8..12] == [f[8], f[9], f[10], f[11]];
  }

  lemma HeaderWritten(f: bytes, size: nat)
    requires Built(f, CMD_OPERAT, size) && size < 0x1_0005
    ensures f[..7] == HeaderText(0x80, size - 5, f[5], f[6])
  {
    HighLow(f[3], f[4], size - 5);
    assert Word(size - 5) == [f[3], f[4]];
  }

  lemma HostWritten(b0: byte, b1: byte, b2: byte, b3: byte, token: int)
    requires FromLittleEndian(b0, b1, b2, b3) == token
    ensures -0x8000_0000 <= token < 0x8000_0000 && [b0, b1, b2, b3] == Host(token)
  {
    var u := b0 + b1 as int * 0x100 + b2 as int * 0x1_0000 + b3 as int * 0x100_0000;
    assert u / 0x100 == b1 + b2 as int * 0x100 + b3 as int * 0x1_0000;
    assert u / 0x1_0000 == b2 + b3 as int * 0x100;
  }
}
