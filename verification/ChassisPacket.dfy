// Packets exchanged with the chassis controller and the codec of the Mick
// binary protocol (chassis_packet.hpp / chassis_packet.cpp).
module ChassisPacket {
  import opened Common

  type byte = b: int | 0 <= b < 256
  type int16 = v: int | -32768 <= v < 32768

  datatype FaultCode =
    | NoFault | CommandTimeout | HeartbeatTimeout | BackendDisconnected
    | MalformedPacket | EmergencyStopActive

  datatype ChassisCommand = ChassisCommand(linearX: real, linearY: real, angularZ: real)

  const STOP := ChassisCommand(0.0, 0.0, 0.0)

  datatype OdometryPacket = OdometryPacket(
    seqNo: Option<nat>, timestampSec: Option<real>,
    x: real, y: real, yaw: real,
    linearX: real, linearY: real, angularZ: real,
    leftRpm: Option<real>, rightRpm: Option<real>, battery: Option<real>)

  datatype StatePacket = StatePacket(
    seqNo: Option<nat>, timestampSec: Option<real>,
    status: string, mode: string, battery: Option<real>,
    faultCode: FaultCode, emergencyStop: bool, connected: bool, temperature: Option<real>)

  datatype HeartbeatPacket = HeartbeatPacket(seqNo: nat, timestampSec: real, source: string)

  datatype Packet =
    | Odometry(odometry: OdometryPacket)
    | State(state: StatePacket)
    | Heartbeat(heartbeat: HeartbeatPacket)

  datatype MickFrame = MickFrame(kind: byte, payload: seq<byte>)

  // ---------------------------------------------------------------- 16-bit fields

  function Int16Bytes(v: int16): seq<byte> {
    [(v / 256) % 256, v % 256]
  }

  /** Big-endian unsigned read; `at()` bounds become a precondition, which every caller checks first. */
  function ReadUint16(payload: seq<byte>, offset: nat): nat
    requires offset + 1 < |payload|
  {
    var high: nat := payload[offset];
    high * 256 + payload[offset + 1]
  }

  function ReadInt16(payload: seq<byte>, offset: nat): int16
    requires offset + 1 < |payload|
  {
    var u := ReadUint16(payload, offset);
    if u < 32768 then u else u - 65536
  }

  function ClampToInt16(value: real): int16 {
    LRound(Min(Max(value, -32768.0), 32767.0))
  }

  /** A 16-bit field reads back exactly wherever it sits in a payload, and no two values share bytes. */
  lemma Int16RoundTrip(before: seq<byte>, v: int16, after: seq<byte>)
    ensures ReadInt16(before + Int16Bytes(v) + after, |before|) == v
    ensures forall w: int16 :: Int16Bytes(w) == Int16Bytes(v) ==> w == v
  {
    var p := before + Int16Bytes(v) + after;
    assert p[|before|] == Int16Bytes(v)[0] && p[|before| + 1] == Int16Bytes(v)[1];
    forall w: int16 | Int16Bytes(w) == Int16Bytes(v)
      ensures w == v
    {
      assert Int16Bytes(w)[0] == Int16Bytes(v)[0] && Int16Bytes(w)[1] == Int16Bytes(v)[1];
    }
  }

  // ---------------------------------------------------------------- frames

  const MAGIC0: byte := 0xae
  const MAGIC1: byte := 0xea
  const TRAILER0: byte := 0xef
  const TRAILER1: byte := 0xfe

  function ByteSum(s: seq<byte>): nat {
    if s == [] then 0 else ByteSum(s[..|s| - 1]) + s[|s| - 1] as int
  }

  /** The additive checksum kept in one wrapping byte. */
  function Checksum(s: seq<byte>): byte {
    ByteSum(s) % 256
  }

  /** The wrapping accumulation loop of the encoder and of the receiver. */
  method SumBytes(s: seq<byte>) returns (checksum: byte)
    ensures checksum == Checksum(s)
  {
    checksum := 0;
    for i := 0 to |s|
      invariant checksum == ByteSum(s[..i]) % 256
    {
      assert s[..i + 1][..i] == s[..i];
      ModAdd(ByteSum(s[..i]), s[i]);
      checksum := (checksum + s[i]) % 256;
    }
    assert s[..|s|] == s;
  }

  lemma ModAdd(m: int, n: int)
    ensures (m % 256 + n) % 256 == (m + n) % 256
  {
  }

  /** The bytes of a frame with an arbitrary checksum byte; `length` wraps as the cast to uint8_t does. */
  function FrameWith(kind: byte, payload: seq<byte>, checksum: byte): seq<byte> {
    [MAGIC0, MAGIC1, (|payload| + 2) % 256, kind] + payload + [checksum, TRAILER0, TRAILER1]
  }

  function FrameChecksum(kind: byte, payload: seq<byte>): byte {
    Checksum([(|payload| + 2) % 256, kind] + payload)
  }

  function EncodedFrame(kind: byte, payload: seq<byte>): seq<byte> {
    FrameWith(kind, payload, FrameChecksum(kind, payload))
  }

  method EncodeMickBinaryFrame(kind: byte, payload: seq<byte>) returns (frame: seq<byte>)
    ensures frame == EncodedFrame(kind, payload)
  {
    frame := [MAGIC0, MAGIC1];
    frame := frame + [(|payload| + 2) % 256];
    frame := frame + [kind];
    frame := frame + payload;
    var checksum := SumBytes(frame[2..]);
    assert frame[2..] == [(|payload| + 2) % 256, kind] + payload;
    frame := frame + [checksum];
    frame := frame + [TRAILER0];
    frame := frame + [TRAILER1];
  }

  function SpeedPayload(command: ChassisCommand): seq<byte> {
    Int16Bytes(ClampToInt16(command.linearX * 1000.0)) +
    Int16Bytes(ClampToInt16(command.linearY * 1000.0)) +
    Int16Bytes(ClampToInt16(command.angularZ * 1000.0))
  }

  method EncodeMickSpeedCommand(command: ChassisCommand) returns (frame: seq<byte>)
    ensures frame == EncodedFrame(0xf3, SpeedPayload(command))
  {
    var payload := Int16Bytes(ClampToInt16(command.linearX * 1000.0));
    payload := payload + Int16Bytes(ClampToInt16(command.linearY * 1000.0));
    payload := payload + Int16Bytes(ClampToInt16(command.angularZ * 1000.0));
    frame := EncodeMickBinaryFrame(0xf3, payload);
  }

  ghost predicate NearestMilli(v: int16, speed: real) {
    && (-32.768 <= speed <= 32.767 ==> -0.0005 <= v as real / 1000.0 - speed <= 0.0005)
    && (speed < -32.768 ==> v == -32768)
    && (speed > 32.767 ==> v == 32767)
  }

  lemma ClampIsNearest(speed: real)
    ensures NearestMilli(ClampToInt16(speed * 1000.0), speed)
  {
    var v := ClampToInt16(speed * 1000.0);
    if -32.768 <= speed <= 32.767 {
      assert -0.5 <= v as real - speed * 1000.0 <= 0.5;
    }
  }

  /** What the controller reads from a speed command is each speed to the nearest mm/s, saturated. */
  lemma SpeedCommandReadsBack(command: ChassisCommand)
    ensures |SpeedPayload(command)| == 6
    ensures NearestMilli(ReadInt16(SpeedPayload(command), 0), command.linearX)
    ensures NearestMilli(ReadInt16(SpeedPayload(command), 2), command.linearY)
    ensures NearestMilli(ReadInt16(SpeedPayload(command), 4), command.angularZ)
  {
    hide Int16Bytes, ReadInt16, NearestMilli, ClampToInt16;
    var p := SpeedPayload(command);
    var x, y, z := command.linearX, command.linearY, command.angularZ;
    Int16Length(ClampToInt16(x * 1000.0));
    Int16Length(ClampToInt16(y * 1000.0));
    Int16Length(ClampToInt16(z * 1000.0));
    ReadsBackAt(p, 0, ClampToInt16(x * 1000.0));
    ReadsBackAt(p, 2, ClampToInt16(y * 1000.0));
    ReadsBackAt(p, 4, ClampToInt16(z * 1000.0));
    ClampIsNearest(x);
    ClampIsNearest(y);
    ClampIsNearest(z);
  }

  lemma Int16Length(v: int16)
    ensures |Int16Bytes(v)| == 2
  {
  }

  lemma ReadsBackAt(p: seq<byte>, offset: nat, v: int16)
    requires offset + 1 < |p| && p[offset..offset + 2] == Int16Bytes(v)
    ensures ReadInt16(p, offset) == v
  {
    hide Int16Bytes, ReadInt16;
    assert p == p[..offset] + Int16Bytes(v) + p[offset + 2..];
    Int16RoundTrip(p[..offset], v, p[offset + 2..]);
  }

  /** A concrete frame: 0.1 m/s ahead, -0.256 m/s sideways, no turn. */
  lemma SpeedCommandBytes()
    ensures EncodedFrame(0xf3, SpeedPayload(ChassisCommand(0.1, -0.256, 0.0))) ==
            [0xae, 0xea, 8, 0xf3, 0, 100, 0xff, 0, 0, 0, 0x5e, 0xef, 0xfe]
  {
    assert ClampToInt16(0.1 * 1000.0) == 100 && ClampToInt16(-0.256 * 1000.0) == -256 && ClampToInt16(0.0 * 1000.0) == 0;
    var p: seq<byte> := [0, 100, 0xff, 0, 0, 0];
    assert SpeedPayload(ChassisCommand(0.1, -0.256, 0.0)) == p;
    var s: seq<byte> := [8, 0xf3, 0, 100, 0xff, 0, 0, 0];
    assert [(|p| + 2) % 256, 0xf3] + p == s;
    SumOfEight(s);
    assert FrameChecksum(0xf3, p) == 0x5e;
    hide Checksum;
    assert EncodedFrame(0xf3, p) == [0xae, 0xea, 8, 0xf3] + p + [0x5e, 0xef, 0xfe];
  }

  lemma NextByteSum(s: seq<byte>, n: nat)
    requires n < |s|
    ensures ByteSum(s[..n + 1]) == ByteSum(s[..n]) + s[n] as int
  {
    assert s[..n + 1][..n] == s[..n];
  }

  lemma SumOfEight(s: seq<byte>)
    requires |s| == 8
    ensures ByteSum(s) == s[0] as int + s[1] as int + s[2] as int + s[3] as int + s[4] as int + s[5] as int + s[6] as int + s[7] as int
  {
    assert ByteSum(s[..0]) == 0 && s[..8] == s;
    hide ByteSum;
    NextByteSum(s, 0);
    NextByteSum(s, 1);
    NextByteSum(s, 2);
    NextByteSum(s, 3);
    NextByteSum(s, 4);
    NextByteSum(s, 5);
    NextByteSum(s, 6);
    NextByteSum(s, 7);
  }

  // ---------------------------------------------------------------- decoding

  function Milli(payload: seq<byte>, offset: nat): real
    requires offset + 1 < |payload|
  {
    ReadInt16(payload, offset) as real / 1000.0
  }

  function DecodeMickBinaryPacket(frame: MickFrame): Option<Packet> {
    var p := frame.payload;
    if frame.kind == 0xa1 && |p| >= 12 then
      Some(Odometry(OdometryPacket(
        None, None, Milli(p, 0), Milli(p, 2), Milli(p, 4), Milli(p, 6), 0.0, Milli(p, 8),
        None, None, Some(ReadUint16(p, 10) as real / 100.0))))
    else if frame.kind == 0xa2 then
      Some(State(StatePacket(
        None, None, if p == [] || p[0] == 0 then "running" else "fault", "",
        if |p| >= 3 then Some(ReadUint16(p, 1) as real / 100.0) else None,
        NoFault, false, true, None)))
    else None
  }

  function OdometryPayload(x: int16, y: int16, yaw: int16, vx: int16, wz: int16, battery: nat, more: seq<byte>): seq<byte>
    requires battery < 65536
  {
    Int16Bytes(x) + Int16Bytes(y) + Int16Bytes(yaw) + Int16Bytes(vx) + Int16Bytes(wz) + [battery / 256, battery % 256] + more
  }

  lemma FieldAt(p: seq<byte>, offset: nat, v: int16)
    requires offset + 1 < |p| && p[offset..offset + 2] == Int16Bytes(v)
    ensures Milli(p, offset) == v as real / 1000.0
  {
    ReadsBackAt(p, offset, v);
  }

  /** An odometry report reads back field by field, in thousandths and hundredths, whatever follows it. */
  lemma OdometryReadsBack(x: int16, y: int16, yaw: int16, vx: int16, wz: int16, battery: nat, more: seq<byte>)
    requires battery < 65536
    ensures var d := DecodeMickBinaryPacket(MickFrame(0xa1, OdometryPayload(x, y, yaw, vx, wz, battery, more)));
      && d.Some? && d.value.Odometry?
      && var o := d.value.odometry;
        && o.x == x as real / 1000.0 && o.y == y as real / 1000.0 && o.yaw == yaw as real / 1000.0
        && o.linearX == vx as real / 1000.0 && o.linearY == 0.0 && o.angularZ == wz as real / 1000.0
        && o.battery == Some(battery as real / 100.0) && o.seqNo == None && o.timestampSec == None
  {
    var p := OdometryPayload(x, y, yaw, vx, wz, battery, more);
    hide Int16Bytes, Milli;
    Int16Length(x);
    Int16Length(y);
    Int16Length(yaw);
    Int16Length(vx);
    Int16Length(wz);
    FieldAt(p, 0, x);
    FieldAt(p, 2, y);
    FieldAt(p, 4, yaw);
    FieldAt(p, 6, vx);
    FieldAt(p, 8, wz);
    assert p[10] == battery / 256 && p[11] == battery % 256;
  }

  /** A state report reads back: running exactly on status 0, the battery in hundredths of a volt, whatever follows. */
  lemma StateReadsBack(status: byte, battery: nat, more: seq<byte>)
    requires battery < 65536
    ensures DecodeMickBinaryPacket(MickFrame(0xa2, [status, battery / 256, battery % 256] + more)) ==
            Some(State(StatePacket(None, None, if status == 0 then "running" else "fault", "",
                                   Some(battery as real / 100.0), NoFault, false, true, None)))
  {
    var p := [status, battery / 256, battery % 256] + more;
    assert p[0] == status && ReadUint16(p, 1) == battery;
  }

  /** Up to two bytes carry no battery; an empty report means running. */
  lemma ShortStateReadsBack(payload: seq<byte>)
    requires |payload| < 3
    ensures DecodeMickBinaryPacket(MickFrame(0xa2, payload)) ==
            Some(State(StatePacket(None, None, if payload != [] && payload[0] != 0 then "fault" else "running", "",
                                   None, NoFault, false, true, None)))
  {
  }

  /** Only odometry reports of at least twelve bytes and state reports mean anything. */
  lemma DecodesExactly(kind: byte, payload: seq<byte>)
    ensures var d := DecodeMickBinaryPacket(MickFrame(kind, payload));
      && (d.Some? <==> kind == 0xa2 || (kind == 0xa1 && |payload| >= 12))
      && (d.Some? ==> if kind == 0xa2 then d.value.State? else d.value.Odometry?)
  {
  }

  // ---------------------------------------------------------------- checksum algebra

  lemma {:induction false} ByteSumAppend(a: seq<byte>, b: seq<byte>)
    ensures ByteSum(a + b) == ByteSum(a) + ByteSum(b)
  {
    if b == [] {
      assert a + b == a;
    } else {
      assert (a + b)[..|a + b| - 1] == a + b[..|b| - 1];
      ByteSumAppend(a, b[..|b| - 1]);
    }
  }

  lemma ByteSumAround(a: seq<byte>, v: byte, b: seq<byte>)
    ensures ByteSum(a + [v] + b) == ByteSum(a) + v as int + ByteSum(b)
  {
    ByteSumAppend(a + [v], b);
    assert (a + [v])[..|a + [v]| - 1] == a;
  }

  lemma ModInjective(m: int, v: byte, w: byte)
    requires (m + v) % 256 == (m + w) % 256
    ensures v == w
  {
  }

  /** The checksum detects every change of a single byte. */
  lemma ChecksumDetectsOneByte(s: seq<byte>, k: nat, v: byte)
    requires k < |s| && v != s[k]
    ensures Checksum(s[k := v]) != Checksum(s)
  {
    hide ByteSum;
    var a, w, b := s[..k], s[k], s[k + 1..];
    assert s == a + [w] + b;
    assert s[k := v] == a + [v] + b;
    ByteSumAround(a, w, b);
    ByteSumAround(a, v, b);
    if Checksum(s[k := v]) == Checksum(s) {
      ModInjective(ByteSum(a) + ByteSum(b), v, w);
    }
  }
}
