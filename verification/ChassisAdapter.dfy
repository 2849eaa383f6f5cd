// chassis_system_adapter.cpp: the adapter between a chassis backend and the driver.
// What the backend's own calls answer (is it open, did it accept a write, which bytes
// arrived) is supplied by the environment as method arguments.
module ChassisAdapter {
  import opened Common
  import opened ChassisPacket
  import opened Kinematics
  import Text = TextStream
  import Mick = MickStream

  datatype SystemState = SystemState(
    backendOpen: bool, connected: bool, hardwareStatus: string,
    pose: PlanarPose, linearX: real, linearY: real, angularZ: real,
    battery: real, wheelSpeeds: WheelSpeeds, packetSequence: nat,
    lastRxSeq: nat, lastRxTimestamp: real, faultCode: FaultCode,
    emergencyStop: bool, temperature: real)

  const ORIGIN := PlanarPose(0.0, 0.0, 0.0)
  const STILL := WheelSpeeds(0.0, 0.0, 0.0, 0.0)

  function Or<T>(value: Option<T>, otherwise: T): T {
    if value.Some? then value.value else otherwise
  }

  // ---------------------------------------------------------------- packets

  function AfterOdometry(drive: Drive, g: Geometry, s: SystemState, o: OdometryPacket): SystemState {
    var w := EstimateWheelSpeeds(ChassisCommand(o.linearX, o.linearY, o.angularZ), drive, g);
    s.(pose := PlanarPose(o.x, o.y, o.yaw),
       linearX := o.linearX, linearY := o.linearY, angularZ := o.angularZ,
       wheelSpeeds := WheelSpeeds(Or(o.leftRpm, w.fl), Or(o.rightRpm, w.fr), Or(o.leftRpm, w.rl), Or(o.rightRpm, w.rr)),
       battery := Or(o.battery, s.battery),
       lastRxSeq := Or(o.seqNo, s.lastRxSeq), lastRxTimestamp := Or(o.timestampSec, s.lastRxTimestamp),
       faultCode := NoFault, packetSequence := s.packetSequence + 1, connected := true)
  }

  function AfterHeartbeat(s: SystemState, h: HeartbeatPacket): SystemState {
    s.(lastRxSeq := h.seqNo, lastRxTimestamp := h.timestampSec, faultCode := NoFault,
       packetSequence := s.packetSequence + 1, connected := true)
  }

  function AfterState(s: SystemState, p: StatePacket): SystemState {
    s.(hardwareStatus := if p.mode != "" then p.mode else if p.status != "" then p.status else s.hardwareStatus,
       battery := Or(p.battery, s.battery),
       lastRxSeq := Or(p.seqNo, s.lastRxSeq), lastRxTimestamp := Or(p.timestampSec, s.lastRxTimestamp),
       faultCode := p.faultCode, emergencyStop := p.emergencyStop, connected := p.connected,
       temperature := Or(p.temperature, s.temperature), packetSequence := s.packetSequence + 1)
  }

  function AfterPacket(drive: Drive, g: Geometry, s: SystemState, packet: Packet): SystemState {
    match packet
    case Odometry(o) => AfterOdometry(drive, g, s, o)
    case Heartbeat(h) => AfterHeartbeat(s, h)
    case State(p) => AfterState(s, p)
  }

  function ApplyAll(drive: Drive, g: Geometry, s: SystemState, packets: seq<Packet>): SystemState
    decreases |packets|
  {
    if packets == [] then s
    else ApplyAll(drive, g, AfterPacket(drive, g, s, packets[0]), packets[1..])
  }

  // ---------------------------------------------------------------- what a series of packets leaves

  /** What the latest packet that says something says, looking back from the end. */
  function Latest<T>(packets: seq<Packet>, says: Packet -> Option<T>, otherwise: T): T
    decreases |packets|
  {
    if packets == [] then otherwise
    else
      var n := |packets| - 1;
      if says(packets[n]).Some? then says(packets[n]).value else Latest(packets[..n], says, otherwise)
  }

  function SaysPose(p: Packet): Option<PlanarPose> {
    if p.Odometry? then Some(PlanarPose(p.odometry.x, p.odometry.y, p.odometry.yaw)) else None
  }

  function SaysBattery(p: Packet): Option<real> {
    match p case Odometry(o) => o.battery case State(s) => s.battery case Heartbeat(_) => None
  }

  function SaysSequence(p: Packet): Option<nat> {
    match p case Odometry(o) => o.seqNo case State(s) => s.seqNo case Heartbeat(h) => Some(h.seqNo)
  }

  function SaysFault(p: Packet): Option<FaultCode> {
    Some(if p.State? then p.state.faultCode else NoFault)
  }

  function SaysConnected(p: Packet): Option<bool> {
    Some(if p.State? then p.state.connected else true)
  }

  function SaysStop(p: Packet): Option<bool> {
    if p.State? then Some(p.state.emergencyStop) else None
  }

  function SaysTemperature(p: Packet): Option<real> {
    if p.State? then p.state.temperature else None
  }

  function SaysSpeeds(p: Packet): Option<ChassisCommand> {
    if p.Odometry? then Some(ChassisCommand(p.odometry.linearX, p.odometry.linearY, p.odometry.angularZ)) else None
  }

  /** The wheel speeds a packet implies: those of the measured speeds, unless a side reports its own. */
  function SaysWheels(drive: Drive, g: Geometry): Packet -> Option<WheelSpeeds> {
    (p: Packet) =>
      if p.Odometry? then
        var o := p.odometry;
        var w := EstimateWheelSpeeds(ChassisCommand(o.linearX, o.linearY, o.angularZ), drive, g);
        Some(WheelSpeeds(Or(o.leftRpm, w.fl), Or(o.rightRpm, w.fr), Or(o.leftRpm, w.rl), Or(o.rightRpm, w.rr)))
      else None
  }

  function SaysStatus(p: Packet): Option<string> {
    if p.State? && p.state.mode != "" then Some(p.state.mode)
    else if p.State? && p.state.status != "" then Some(p.state.status)
    else None
  }

  function SaysTimestamp(p: Packet): Option<real> {
    match p case Odometry(o) => o.timestampSec case State(s) => s.timestampSec case Heartbeat(h) => Some(h.timestampSec)
  }

  function Speeds(s: SystemState): ChassisCommand {
    ChassisCommand(s.linearX, s.linearY, s.angularZ)
  }

  /** Each field holds what the latest packet that carries it says; absent fields keep their value. */
  ghost predicate HoldsLatest(drive: Drive, g: Geometry, s: SystemState, packets: seq<Packet>, r: SystemState) {
    && r.pose == Latest(packets, SaysPose, s.pose)
    && Speeds(r) == Latest(packets, SaysSpeeds, Speeds(s))
    && r.wheelSpeeds == Latest(packets, SaysWheels(drive, g), s.wheelSpeeds)
    && r.battery == Latest(packets, SaysBattery, s.battery)
    && r.lastRxSeq == Latest(packets, SaysSequence, s.lastRxSeq)
    && r.lastRxTimestamp == Latest(packets, SaysTimestamp, s.lastRxTimestamp)
    && r.hardwareStatus == Latest(packets, SaysStatus, s.hardwareStatus)
    && r.faultCode == Latest(packets, SaysFault, s.faultCode)
    && r.connected == Latest(packets, SaysConnected, s.connected)
    && r.emergencyStop == Latest(packets, SaysStop, s.emergencyStop)
    && r.temperature == Latest(packets, SaysTemperature, s.temperature)
    && r.packetSequence == s.packetSequence + |packets|
    && r.backendOpen == s.backendOpen
  }

  /** What one packet changes, field by field. */
  lemma PacketSays(drive: Drive, g: Geometry, r: SystemState, p: Packet)
    ensures var a := AfterPacket(drive, g, r, p);
      && a.pose == Or(SaysPose(p), r.pose) && Speeds(a) == Or(SaysSpeeds(p), Speeds(r))
      && a.wheelSpeeds == Or(SaysWheels(drive, g)(p), r.wheelSpeeds)
      && a.battery == Or(SaysBattery(p), r.battery) && a.lastRxSeq == Or(SaysSequence(p), r.lastRxSeq)
      && a.lastRxTimestamp == Or(SaysTimestamp(p), r.lastRxTimestamp)
      && a.hardwareStatus == Or(SaysStatus(p), r.hardwareStatus)
      && a.faultCode == Or(SaysFault(p), r.faultCode) && a.connected == Or(SaysConnected(p), r.connected)
      && a.emergencyStop == Or(SaysStop(p), r.emergencyStop) && a.temperature == Or(SaysTemperature(p), r.temperature)
      && a.packetSequence == r.packetSequence + 1 && a.backendOpen == r.backendOpen
  {
    hide EstimateWheelSpeeds;
  }

  lemma HoldsLatestNext(drive: Drive, g: Geometry, s: SystemState, init: seq<Packet>, last: Packet, r: SystemState)
    requires HoldsLatest(drive, g, s, init, r)
    ensures HoldsLatest(drive, g, s, init + [last], AfterPacket(drive, g, r, last))
  {
    hide AfterPacket, Latest, Or, Speeds, SaysPose, SaysSpeeds, SaysWheels, SaysBattery, SaysSequence, SaysTimestamp,
         SaysStatus, SaysFault, SaysConnected, SaysStop, SaysTemperature;
    PacketSays(drive, g, r, last);
    LatestNext(init, last, SaysPose, s.pose);
    LatestNext(init, last, SaysSpeeds, Speeds(s));
    LatestNext(init, last, SaysWheels(drive, g), s.wheelSpeeds);
    LatestNext(init, last, SaysBattery, s.battery);
    LatestNext(init, last, SaysSequence, s.lastRxSeq);
    LatestNext(init, last, SaysTimestamp, s.lastRxTimestamp);
    LatestNext(init, last, SaysStatus, s.hardwareStatus);
    LatestNext(init, last, SaysFault, s.faultCode);
    LatestNext(init, last, SaysConnected, s.connected);
    LatestNext(init, last, SaysStop, s.emergencyStop);
    LatestNext(init, last, SaysTemperature, s.temperature);
  }

  lemma LatestNext<T>(init: seq<Packet>, last: Packet, says: Packet -> Option<T>, otherwise: T)
    ensures Latest(init + [last], says, otherwise) == Or(says(last), Latest(init, says, otherwise))
  {
    assert (init + [last])[..|init|] == init;
  }

  lemma {:induction false} LatestPacketWins(drive: Drive, g: Geometry, s: SystemState, packets: seq<Packet>)
    ensures HoldsLatest(drive, g, s, packets, ApplyAll(drive, g, s, packets))
    decreases |packets|
  {
    if packets != [] {
      hide AfterPacket, HoldsLatest;
      var n := |packets| - 1;
      LatestPacketWins(drive, g, s, packets[..n]);
      ApplyLast(drive, g, s, packets);
      HoldsLatestNext(drive, g, s, packets[..n], packets[n], ApplyAll(drive, g, s, packets[..n]));
      assert packets[..n] + [packets[n]] == packets;
    }
  }

  lemma {:induction false} ApplyLast(drive: Drive, g: Geometry, s: SystemState, packets: seq<Packet>)
    requires packets != []
    ensures ApplyAll(drive, g, s, packets) ==
            AfterPacket(drive, g, ApplyAll(drive, g, s, packets[..|packets| - 1]), packets[|packets| - 1])
    decreases |packets|
  {
    hide AfterPacket;
    var n := |packets| - 1;
    if n > 0 {
      ApplyLast(drive, g, AfterPacket(drive, g, s, packets[0]), packets[1..]);
      assert packets[1..][..n - 1] == packets[..n][1..];
    }
  }

  // ---------------------------------------------------------------- one read

  /** The state together with the receive buffer of the protocol in use. */
  datatype Link = Link(state: SystemState, buffer: seq<byte>)

  function Malformed(s: SystemState): SystemState {
    s.(faultCode := MalformedPacket)
  }

  function ReadText(parse: Text.LineParser, limit: nat, drive: Drive, g: Geometry, link: Link, bytes: seq<byte>): Link {
    if |link.buffer + bytes| > limit then Link(Malformed(link.state), [])
    else
      var d := Text.Drain(parse, link.buffer + bytes);
      var s := ApplyAll(drive, g, link.state, d.packets);
      Link(if d.invalid > 0 then Malformed(s) else s, d.rest)
  }

  function ReadMick(limit: nat, drive: Drive, g: Geometry, link: Link, bytes: seq<byte>): Link {
    if |link.buffer + bytes| > limit then Link(Malformed(link.state), [])
    else
      var d := Mick.Drain(link.buffer + bytes);
      var s := ApplyAll(drive, g, link.state, d.packets);
      Link(if d.invalid > 0 then Malformed(s) else s, d.rest)
  }

  /** The mock backend integrates the command it was last given. */
  function MockMotion(trig: Trig, drive: Drive, g: Geometry, s: SystemState, c: ChassisCommand, period: real): SystemState {
    s.(pose := IntegratePlanarMotion(trig, s.pose, c, Max(0.0, period)),
       linearX := c.linearX, linearY := c.linearY, angularZ := c.angularZ,
       wheelSpeeds := EstimateWheelSpeeds(c, drive, g),
       faultCode := NoFault, emergencyStop := false, packetSequence := s.packetSequence + 1)
  }

  function NormalizeCommand(drive: Drive, command: ChassisCommand): ChassisCommand {
    if drive.Mecanum? then command else command.(linearY := 0.0)
  }

  /** The bytes fit the receive buffer and complete no invalid line. */
  predicate TextReadsClean(parse: Text.LineParser, limit: nat, buffer: seq<byte>, bytes: seq<byte>) {
    |buffer + bytes| <= limit && Text.Drain(parse, buffer + bytes).invalid == 0
  }

  /** The bytes fit the receive buffer and complete no invalid frame. */
  predicate MickReadsClean(limit: nat, buffer: seq<byte>, bytes: seq<byte>) {
    |buffer + bytes| <= limit && Mick.Drain(buffer + bytes).invalid == 0
  }

  class ChassisSystemAdapter {
    const isMock: bool
    const mickBinary: bool
    const trig: Trig
    const geometry: Geometry
    const text: Text.ChassisPacketStream
    const mick: Mick.MickBinaryPacketStream
    var drive: Drive
    var command: ChassisCommand
    var state: SystemState
    var backendIsOpen: bool

    /** Between calls both receivers have had their overflow flag and error count cleared. */
    ghost predicate Valid()
      reads this, text, mick
    {
      && !text.overflowed && text.invalidLineCount == 0
      && !mick.overflowed && mick.invalidFrameCount == 0
    }

    constructor (isMock: bool, mickBinary: bool, model: string, geometry: Geometry, trig: Trig,
                 parse: Text.LineParser, fallbackBattery: real)
      ensures Valid() && fresh(text) && fresh(mick)
      ensures this.isMock == isMock && this.mickBinary == mickBinary && this.geometry == geometry && this.trig == trig
      ensures text.parse == parse && text.maxBufferBytes == 4096 && mick.maxBufferBytes == 4096
      ensures text.buffer == [] && mick.buffer == []
      ensures drive == NormalizeKinematicsModel(model) && command == STOP && !backendIsOpen
      ensures state == SystemState(false, false, "running", ORIGIN, 0.0, 0.0, 0.0, fallbackBattery, STILL, 0, 0, 0.0, NoFault, false, 0.0)
    {
      this.isMock, this.mickBinary, this.geometry, this.trig := isMock, mickBinary, geometry, trig;
      text := new Text.ChassisPacketStream(parse, 4096);
      mick := new Mick.MickBinaryPacketStream(4096);
      drive, command, backendIsOpen := NormalizeKinematicsModel(model), STOP, false;
      state := SystemState(false, false, "running", ORIGIN, 0.0, 0.0, 0.0, fallbackBattery, STILL, 0, 0, 0.0, NoFault, false, 0.0);
    }

    /** `success` is what the backend's own Open answers, `isOpen` whether it is open afterwards; the mock always opens. */
    method Open(success: bool, isOpen: bool) returns (ok: bool)
      requires isMock ==> success && isOpen
      modifies this`state, this`backendIsOpen
      ensures ok == success && backendIsOpen == isOpen
      ensures state == old(state).(backendOpen := isOpen, connected := isMock || (isOpen && old(state.connected)))
    {
      backendIsOpen := isOpen;
      RefreshOpenState();
      if success && isMock {
        state := state.(connected := true);
      }
      ok := success;
    }

    method RefreshOpenState()
      modifies this`state
      ensures state == old(state).(backendOpen := backendIsOpen, connected := backendIsOpen && old(state.connected))
    {
      state := state.(backendOpen := backendIsOpen);
      if !state.backendOpen {
        state := state.(connected := false);
      }
    }

    method SetKinematicsModel(model: string)
      modifies this`drive
      ensures drive == NormalizeKinematicsModel(model)
    {
      drive := NormalizeKinematicsModel(model);
    }

    /** `accepted` is the backend's answer; the mock accepts whenever it is open. */
    method Write(c: ChassisCommand, accepted: bool) returns (ok: bool)
      requires isMock ==> accepted
      modifies this`state, this`command
      ensures ok == (backendIsOpen && accepted)
      ensures command == if ok then NormalizeCommand(drive, c) else old(command)
      ensures state == old(state).(backendOpen := backendIsOpen, connected := backendIsOpen && old(state.connected))
    {
      RefreshOpenState();
      if !state.backendOpen {
        return false;
      }
      var normalized := NormalizeCommand(drive, c);
      if !accepted {
        return false;
      }
      command := normalized;
      ok := true;
    }

    method ResetOdometry()
      modifies this`state
      ensures state == old(state).(pose := ORIGIN)
    {
      state := state.(pose := state.pose.(x := 0.0));
      state := state.(pose := state.pose.(y := 0.0));
      state := state.(pose := state.pose.(yaw := 0.0));
    }

    method IntegrateMock(period: real)
      modifies this`state
      ensures state == MockMotion(trig, drive, geometry, old(state), command, period)
    {
      var pose := IntegratePlanarMotion(trig, state.pose, command, Max(0.0, period));
      state := state.(pose := pose, linearX := command.linearX, linearY := command.linearY, angularZ := command.angularZ);
      state := state.(wheelSpeeds := EstimateWheelSpeeds(command, drive, geometry));
      state := state.(faultCode := NoFault, emergencyStop := false, packetSequence := state.packetSequence + 1);
    }

    method ApplyPacket(packet: Packet)
      modifies this`state
      ensures state == AfterPacket(drive, geometry, old(state), packet)
    {
      hide AfterOdometry, AfterState;
      match packet
      case Odometry(o) => ApplyOdometry(o);
      case State(p) => ApplyState(p);
      case Heartbeat(h) =>
        state := state.(lastRxSeq := h.seqNo, lastRxTimestamp := h.timestampSec);
        state := state.(faultCode := NoFault, packetSequence := state.packetSequence + 1, connected := true);
    }

    method ApplyOdometry(o: OdometryPacket)
      modifies this`state
      ensures state == AfterOdometry(drive, geometry, old(state), o)
    {
      hide EstimateWheelSpeeds;
      state := state.(pose := PlanarPose(o.x, o.y, o.yaw));
      state := state.(linearX := o.linearX, linearY := o.linearY, angularZ := o.angularZ);
      var speeds := EstimateWheelSpeeds(ChassisCommand(o.linearX, o.linearY, o.angularZ), drive, geometry);
      if o.leftRpm.Some? {
        speeds := speeds.(fl := o.leftRpm.value, rl := o.leftRpm.value);
      }
      if o.rightRpm.Some? {
        speeds := speeds.(fr := o.rightRpm.value, rr := o.rightRpm.value);
      }
      state := state.(wheelSpeeds := speeds);
      ApplyOptional(o.battery, o.seqNo, o.timestampSec);
      state := state.(faultCode := NoFault, packetSequence := state.packetSequence + 1, connected := true);
    }

    method ApplyState(p: StatePacket)
      modifies this`state
      ensures state == AfterState(old(state), p)
    {
      ApplyStatus(p.status, p.mode);
      ApplyOptional(p.battery, p.seqNo, p.timestampSec);
      state := state.(faultCode := p.faultCode, emergencyStop := p.emergencyStop, connected := p.connected);
      if p.temperature.Some? {
        state := state.(temperature := p.temperature.value);
      }
      state := state.(packetSequence := state.packetSequence + 1);
    }

    method ApplyStatus(status: string, mode: string)
      modifies this`state
      ensures state == old(state).(hardwareStatus := if mode != "" then mode else if status != "" then status else old(state).hardwareStatus)
    {
      if status != "" {
        state := state.(hardwareStatus := status);
      }
      if mode != "" {
        state := state.(hardwareStatus := mode);
      }
    }

    /** The optional fields odometry and state packets share: an absent one leaves its field alone. */
    method ApplyOptional(battery: Option<real>, seqNo: Option<nat>, timestampSec: Option<real>)
      modifies this`state
      ensures state == old(state).(battery := Or(battery, old(state).battery), lastRxSeq := Or(seqNo, old(state).lastRxSeq),
                                   lastRxTimestamp := Or(timestampSec, old(state).lastRxTimestamp))
    {
      if battery.Some? {
        state := state.(battery := battery.value);
      }
      if seqNo.Some? {
        state := state.(lastRxSeq := seqNo.value);
      }
      if timestampSec.Some? {
        state := state.(lastRxTimestamp := timestampSec.value);
      }
    }

    method ApplyPackets(packets: seq<Packet>)
      modifies this`state
      ensures state == ApplyAll(drive, geometry, old(state), packets)
    {
      for i := 0 to |packets|
        invariant ApplyAll(drive, geometry, old(state), packets) == ApplyAll(drive, geometry, state, packets[i..])
      {
        assert packets[i..][1..] == packets[i + 1..];
        ApplyPacket(packets[i]);
      }
    }

    method ReadTextPackets(bytes: seq<byte>) returns (ok: bool)
      requires Valid()
      modifies this`state, text
      ensures Valid()
      ensures Link(state, text.buffer) ==
              ReadText(text.parse, text.maxBufferBytes, drive, geometry, old(Link(state, text.buffer)), bytes)
      ensures ok <==> TextReadsClean(text.parse, text.maxBufferBytes, old(text.buffer), bytes)
    {
      text.Append(bytes);
      if text.overflowed {
        text.ClearOverflow();
        state := state.(faultCode := MalformedPacket);
        return false;
      }
      var packets := text.DrainPackets();
      ApplyPackets(packets);
      if text.invalidLineCount > 0 {
        text.ClearInvalidLineCount();
        state := state.(faultCode := MalformedPacket);
        return false;
      }
      ok := true;
    }

    method ReadMickPackets(bytes: seq<byte>) returns (ok: bool)
      requires Valid()
      modifies this`state, mick
      ensures Valid()
      ensures Link(state, mick.buffer) ==
              ReadMick(mick.maxBufferBytes, drive, geometry, old(Link(state, mick.buffer)), bytes)
      ensures ok <==> MickReadsClean(mick.maxBufferBytes, old(mick.buffer), bytes)
    {
      mick.Append(bytes);
      if mick.overflowed {
        mick.ClearOverflow();
        state := state.(faultCode := MalformedPacket);
        return false;
      }
      var packets := mick.DrainPackets();
      ApplyPackets(packets);
      if mick.invalidFrameCount > 0 {
        mick.ClearInvalidFrameCount();
        state := state.(faultCode := MalformedPacket);
        return false;
      }
      ok := true;
    }

    /** One Read; `incoming` is what the backend's own Read returned, `ioError` whether it reported an error. */
    method Read(period: real, incoming: Option<seq<byte>>, ioError: bool) returns (ok: bool)
      requires Valid()
      modifies this`state, text, mick
      ensures Valid()
      ensures !backendIsOpen ==> state == old(state).(backendOpen := false, connected := false)
      ensures backendIsOpen && isMock ==>
                state == MockMotion(trig, drive, geometry, old(state).(backendOpen := true), command, period).(connected := true)
      ensures isMock || mickBinary || !backendIsOpen || incoming.None? ==> text.buffer == old(text.buffer)
      ensures isMock || !mickBinary || !backendIsOpen || incoming.None? ==> mick.buffer == old(mick.buffer)
      ensures backendIsOpen && !isMock ==>
                match incoming
                case None => state == old(state).(backendOpen := true)
                case Some(bytes) =>
                  if mickBinary then
                    Link(state, mick.buffer) == ReadMick(mick.maxBufferBytes, drive, geometry,
                                                         Link(old(state).(backendOpen := true), old(mick.buffer)), bytes)
                  else
                    Link(state, text.buffer) == ReadText(text.parse, text.maxBufferBytes, drive, geometry,
                                                         Link(old(state).(backendOpen := true), old(text.buffer)), bytes)
      ensures ok <==>
                && backendIsOpen && state.connected
                && (isMock || match incoming
                              case None => !ioError
                              case Some(bytes) =>
                                if mickBinary then MickReadsClean(mick.maxBufferBytes, old(mick.buffer), bytes)
                                else TextReadsClean(text.parse, text.maxBufferBytes, old(text.buffer), bytes))
    {
      hide ReadText, ReadMick, ApplyAll, TextReadsClean, MickReadsClean;
      RefreshOpenState();
      if !state.backendOpen {
        return false;
      }
      ok := true;
      if isMock {
        IntegrateMock(period);
        state := state.(connected := true);
      } else {
        match incoming {
          case None => ok := !ioError;
          case Some(bytes) =>
            if mickBinary {
              ok := ReadMickPackets(bytes);
            } else {
              ok := ReadTextPackets(bytes);
            }
        }
      }
      ok := ok && state.connected;
    }
  }

  // ---------------------------------------------------------------- what one read leaves

  /** A binary read reports a malformed packet exactly on overflow or a bad frame, else what its last packet reports. */
  lemma FaultAfterMickRead(limit: nat, drive: Drive, g: Geometry, link: Link, bytes: seq<byte>)
    ensures var d := Mick.Drain(link.buffer + bytes);
      ReadMick(limit, drive, g, link, bytes).state.faultCode ==
      if |link.buffer| + |bytes| > limit || d.invalid > 0 then MalformedPacket
      else if d.packets == [] then link.state.faultCode
      else match d.packets[|d.packets| - 1]
           case State(p) => p.faultCode
           case _ => NoFault
  {
    hide ApplyAll, Mick.Drain;
    LatestPacketWins(drive, g, link.state, Mick.Drain(link.buffer + bytes).packets);
  }

  /**
   * The mock moves, seen from the robot's own frame, by the command it holds times the period, and reports that
   * command as its speeds and, up to a lateral part under diff drive, in its wheel speeds.
   */
  lemma MockFollowsItsCommand(trig: Trig, drive: Drive, g: Geometry, s: SystemState, c: ChassisCommand, period: real)
    requires trig.sin(s.pose.yaw) * trig.sin(s.pose.yaw) + trig.cos(s.pose.yaw) * trig.cos(s.pose.yaw) == 1.0
    requires g.Positive() && period >= 0.0
    ensures var next := MockMotion(trig, drive, g, s, c, period);
      var k, l := trig.cos(s.pose.yaw), trig.sin(s.pose.yaw);
      && (next.pose.x - s.pose.x) * k + (next.pose.y - s.pose.y) * l == c.linearX * period
      && (next.pose.y - s.pose.y) * k - (next.pose.x - s.pose.x) * l == c.linearY * period
      && ChassisCommand(next.linearX, next.linearY, next.angularZ) == c
      && EstimateCommandFromWheelSpeeds(next.wheelSpeeds, drive, g) == (if drive.Mecanum? then c else c.(linearY := 0.0))
      && next.faultCode == NoFault && !next.emergencyStop
  {
    hide IntegratePlanarMotion, EstimateWheelSpeeds, EstimateCommandFromWheelSpeeds;
    CommandRoundTrip(c, drive, g);
    MotionInTheBodyFrame(trig, s.pose, c, period);
  }

  // ---------------------------------------------------------------- chunks do not show in the state

  function ReadsText(parse: Text.LineParser, limit: nat, drive: Drive, g: Geometry, link: Link, chunks: seq<seq<byte>>): Link
    decreases |chunks|
  {
    if chunks == [] then link
    else ReadsText(parse, limit, drive, g, ReadText(parse, limit, drive, g, link, chunks[0]), chunks[1..])
  }

  /** A run of Reads on an open text backend. */
  method ReadAll(adapter: ChassisSystemAdapter, chunks: seq<seq<byte>>)
    requires adapter.Valid() && adapter.backendIsOpen && !adapter.isMock && !adapter.mickBinary
    requires adapter.state.backendOpen
    modifies adapter`state, adapter.text, adapter.mick
    ensures adapter.Valid()
    ensures Link(adapter.state, adapter.text.buffer) ==
            ReadsText(adapter.text.parse, adapter.text.maxBufferBytes, adapter.drive, adapter.geometry,
                      old(Link(adapter.state, adapter.text.buffer)), chunks)
  {
    hide ReadText;
    ghost var whole := ReadsText(adapter.text.parse, adapter.text.maxBufferBytes, adapter.drive, adapter.geometry,
                                 Link(adapter.state, adapter.text.buffer), chunks);
    for i := 0 to |chunks|
      invariant adapter.Valid() && adapter.state.backendOpen
      invariant whole == ReadsText(adapter.text.parse, adapter.text.maxBufferBytes, adapter.drive, adapter.geometry,
                                   Link(adapter.state, adapter.text.buffer), chunks[i..])
    {
      assert chunks[i..][1..] == chunks[i + 1..];
      ReadKeepsOpen(adapter.text.parse, adapter.text.maxBufferBytes, adapter.drive, adapter.geometry,
                    Link(adapter.state, adapter.text.buffer), chunks[i]);
      var ok := adapter.Read(0.0, Some(chunks[i]), false);
    }
  }

  lemma {:induction false} ApplyKeepsOpen(drive: Drive, g: Geometry, s: SystemState, packets: seq<Packet>)
    ensures ApplyAll(drive, g, s, packets).backendOpen == s.backendOpen
    decreases |packets|
  {
    if packets != [] {
      ApplyKeepsOpen(drive, g, AfterPacket(drive, g, s, packets[0]), packets[1..]);
    }
  }

  lemma ReadKeepsOpen(parse: Text.LineParser, limit: nat, drive: Drive, g: Geometry, link: Link, bytes: seq<byte>)
    ensures ReadText(parse, limit, drive, g, link, bytes).state.backendOpen == link.state.backendOpen
  {
    ApplyKeepsOpen(drive, g, link.state, Text.Drain(parse, link.buffer + bytes).packets);
  }

  /** Equal in every field except the fault code. */
  predicate SameButFault(a: SystemState, b: SystemState) {
    a.(faultCode := NoFault) == b.(faultCode := NoFault)
  }

  lemma {:induction false} ApplyIgnoresFault(drive: Drive, g: Geometry, a: SystemState, b: SystemState, packets: seq<Packet>)
    requires SameButFault(a, b)
    ensures SameButFault(ApplyAll(drive, g, a, packets), ApplyAll(drive, g, b, packets))
    decreases |packets|
  {
    if packets != [] {
      OneIgnoresFault(drive, g, a, b, packets[0]);
      ApplyIgnoresFault(drive, g, AfterPacket(drive, g, a, packets[0]), AfterPacket(drive, g, b, packets[0]), packets[1..]);
    }
  }

  lemma OneIgnoresFault(drive: Drive, g: Geometry, a: SystemState, b: SystemState, packet: Packet)
    requires SameButFault(a, b)
    ensures SameButFault(AfterPacket(drive, g, a, packet), AfterPacket(drive, g, b, packet))
  {
    hide EstimateWheelSpeeds;
  }

  lemma {:induction false} ApplyAppend(drive: Drive, g: Geometry, s: SystemState, p: seq<Packet>, q: seq<Packet>)
    ensures ApplyAll(drive, g, s, p + q) == ApplyAll(drive, g, ApplyAll(drive, g, s, p), q)
    decreases |p|
  {
    if p == [] {
      assert p + q == q;
    } else {
      assert (p + q)[1..] == p[1..] + q;
      ApplyAppend(drive, g, AfterPacket(drive, g, s, p[0]), p[1..], q);
    }
  }

  /**
   * However the bytes are split over Read calls, as long as no append overflows, the state is that of
   * applying the packets of the whole text in order, in every field but the fault code.
   */
  lemma {:induction false} ReadsFollowTheText(parse: Text.LineParser, limit: nat, drive: Drive, g: Geometry,
                                              link: Link, chunks: seq<seq<byte>>)
    requires Text.NEWLINE !in link.buffer && !Text.Overflows(parse, limit, link.buffer, chunks)
    ensures var d := Text.Drain(parse, link.buffer + Flatten(chunks));
      var r := ReadsText(parse, limit, drive, g, link, chunks);
      SameButFault(r.state, ApplyAll(drive, g, link.state, d.packets)) && r.buffer == d.rest
    decreases |chunks|
  {
    hide Text.Drain, ApplyAll;
    if chunks == [] {
      assert link.buffer + Flatten(chunks) == link.buffer;
      Text.DrainNothing(parse, link.buffer);
      ApplyNone(drive, g, link.state);
    } else {
      var joined := link.buffer + chunks[0];
      var first := Text.Drain(parse, joined);
      var next := ReadText(parse, limit, drive, g, link, chunks[0]);
      Text.DrainKeepsNoNewline(parse, joined);
      ReadsFollowTheText(parse, limit, drive, g, next, chunks[1..]);
      assert link.buffer + Flatten(chunks) == joined + Flatten(chunks[1..]);
      Text.DrainAppend(parse, joined, Flatten(chunks[1..]));
      var later := Text.Drain(parse, first.rest + Flatten(chunks[1..])).packets;
      ApplyAppend(drive, g, link.state, first.packets, later);
      ApplyIgnoresFault(drive, g, next.state, ApplyAll(drive, g, link.state, first.packets), later);
    }
  }

  lemma ApplyNone(drive: Drive, g: Geometry, s: SystemState)
    ensures ApplyAll(drive, g, s, []) == s
  {
  }

  /** Two ways of splitting the same bytes over Read calls agree on everything but the fault code. */
  lemma ChunkingDoesNotShow(parse: Text.LineParser, limit: nat, drive: Drive, g: Geometry, link: Link,
                            a: seq<seq<byte>>, b: seq<seq<byte>>)
    requires Text.NEWLINE !in link.buffer && Flatten(a) == Flatten(b)
    requires !Text.Overflows(parse, limit, link.buffer, a) && !Text.Overflows(parse, limit, link.buffer, b)
    ensures var ra, rb := ReadsText(parse, limit, drive, g, link, a), ReadsText(parse, limit, drive, g, link, b);
      SameButFault(ra.state, rb.state) && ra.buffer == rb.buffer
  {
    ReadsFollowTheText(parse, limit, drive, g, link, a);
    ReadsFollowTheText(parse, limit, drive, g, link, b);
  }
}
