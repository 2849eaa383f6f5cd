// The steps of chassis_driver_node.cpp on the mock backend: velocity commands, timer
// ticks with the command watchdog, mode changes and odometry resets.  Clock readings are
// nanosecond counts supplied with each step.
module ChassisDriver {
  import opened Common
  import opened ChassisPacket
  import opened Kinematics
  import opened ChassisAdapter
  import Text = TextStream

  datatype Config = Config(geometry: Geometry, trig: Trig, maxLinear: real, maxAngular: real, timeoutMs: int)

  /** The driver's fields together with those of its adapter. */
  datatype DriverState = DriverState(
    command: ChassisCommand, pose: PlanarPose, wheels: WheelSpeeds, adapterDrive: Drive,
    drive: Drive, wheelPose: PlanarPose,
    lastUpdate: int, lastCommand: int, received: bool, timedOut: bool)

  function Initial(model: string, now: int): DriverState {
    var drive := NormalizeKinematicsModel(model);
    DriverState(STOP, ORIGIN, STILL, drive, drive, ORIGIN, now, 0, false, false)
  }

  function ClampMagnitude(value: real, limit: real): real {
    if limit <= 0.0 then value else Min(Max(value, -limit), limit)
  }

  function Clamped(cfg: Config, twist: ChassisCommand): ChassisCommand {
    ChassisCommand(ClampMagnitude(twist.linearX, cfg.maxLinear), ClampMagnitude(twist.linearY, cfg.maxLinear),
                   ClampMagnitude(twist.angularZ, cfg.maxAngular))
  }

  /** C++ integer division of a nanosecond difference: truncation toward zero. */
  function Milliseconds(ns: int): int {
    if ns >= 0 then ns / 1000000 else -((-ns) / 1000000)
  }

  /** The drive model a mode request selects; unsupported requests select none. */
  function RequestedDrive(mode: string): Option<Drive> {
    if mode in ["diff_drive", "mecanum", "omni", "ackermann", "acker", "four_ws4wd", "4ws4wd", "four_wheel_steer"]
    then Some(NormalizeKinematicsModel(mode))
    else None
  }

  /** Which requests select a drive, and which drive: all but the mecanum names mean a differential one. */
  lemma ModesSelect(mode: string)
    ensures RequestedDrive(mode) == Some(Mecanum) <==> mode == "mecanum" || mode == "omni"
    ensures RequestedDrive(mode) == Some(DiffDrive) <==>
            mode in {"diff_drive", "ackermann", "acker", "four_ws4wd", "4ws4wd", "four_wheel_steer"}
  {
  }

  function AfterCommand(cfg: Config, s: DriverState, now: int, twist: ChassisCommand): DriverState {
    s.(command := NormalizeCommand(s.adapterDrive, Clamped(cfg, twist)),
       lastCommand := now, received := true, timedOut := false)
  }

  function AfterTimeoutCheck(cfg: Config, s: DriverState, now: int): DriverState {
    if !s.received || cfg.timeoutMs <= 0 || s.timedOut then s
    else if Milliseconds(now - s.lastCommand) <= cfg.timeoutMs then s
    else s.(command := STOP, timedOut := true)
  }

  function TickLength(s: DriverState, now: int): real {
    Max(0.001, (now - s.lastUpdate) as real / 1000000000.0)
  }

  /** Mock motion, then the wheel odometry from the wheel speeds it reports. */
  function Move(cfg: Config, s: DriverState, dt: real): DriverState {
    var wheels := EstimateWheelSpeeds(s.command, s.adapterDrive, cfg.geometry);
    var measured := EstimateCommandFromWheelSpeeds(wheels, s.drive, cfg.geometry);
    s.(pose := IntegratePlanarMotion(cfg.trig, s.pose, s.command, Max(0.0, dt)), wheels := wheels,
       wheelPose := IntegratePlanarMotion(cfg.trig, s.wheelPose, measured, dt))
  }

  function AfterTick(cfg: Config, s: DriverState, now: int): DriverState {
    Move(cfg, AfterTimeoutCheck(cfg, s, now).(lastUpdate := now), TickLength(s, now))
  }

  function AfterMode(s: DriverState, mode: string): DriverState {
    match RequestedDrive(mode)
    case None => s
    case Some(d) => s.(drive := d, adapterDrive := d)
  }

  function AfterReset(s: DriverState): DriverState {
    s.(pose := ORIGIN, wheelPose := ORIGIN)
  }

  class ChassisDriver {
    const cfg: Config
    const adapter: ChassisSystemAdapter
    var systemState: SystemState
    var drive: Drive
    var wheelPose: PlanarPose
    var wheelCommand: ChassisCommand
    var cmd: ChassisCommand
    var lastUpdate: int
    var lastCommand: int
    var received: bool
    var timedOut: bool
    var backendOpen: bool

    ghost predicate Valid()
      reads this, adapter, adapter.text, adapter.mick
    {
      && adapter.Valid() && adapter.isMock && adapter.backendIsOpen && backendOpen
      && adapter.geometry == cfg.geometry && adapter.trig == cfg.trig
    }

    ghost function Abstract(): DriverState
      reads this, adapter
    {
      DriverState(adapter.command, adapter.state.pose, adapter.state.wheelSpeeds, adapter.drive,
                  drive, wheelPose, lastUpdate, lastCommand, received, timedOut)
    }

    constructor (cfg: Config, model: string, parse: Text.LineParser, now: int)
      ensures Valid() && fresh(adapter) && fresh(adapter.text) && fresh(adapter.mick)
      ensures this.cfg == cfg && Abstract() == Initial(model, now)
    {
      this.cfg := cfg;
      var a := new ChassisSystemAdapter(true, false, model, cfg.geometry, cfg.trig, parse, 24.0);
      var success := a.Open(true, true);
      adapter := a;
      systemState, backendOpen := a.state, true;
      drive := NormalizeKinematicsModel(model);
      wheelPose, wheelCommand, cmd := ORIGIN, STOP, STOP;
      lastUpdate, lastCommand, received, timedOut := now, 0, false, false;
      new;
    }

    method HandleCommand(twist: ChassisCommand, now: int)
      requires Valid()
      modifies this, adapter`state, adapter`command
      ensures Valid() && Abstract() == AfterCommand(cfg, old(Abstract()), now, twist)
    {
      cmd := cmd.(linearX := ClampMagnitude(twist.linearX, cfg.maxLinear));
      cmd := cmd.(linearY := ClampMagnitude(twist.linearY, cfg.maxLinear));
      cmd := cmd.(angularZ := ClampMagnitude(twist.angularZ, cfg.maxAngular));
      lastCommand := now;
      received := true;
      timedOut := false;
      if !backendOpen {
        return;
      }
      var written := adapter.Write(cmd, true);
    }

    method EnforceCommandTimeout(now: int)
      requires Valid()
      modifies this, adapter`state, adapter`command
      ensures Valid() && Abstract() == AfterTimeoutCheck(cfg, old(Abstract()), now)
    {
      if !received || cfg.timeoutMs <= 0 || timedOut {
        return;
      }
      if Milliseconds(now - lastCommand) <= cfg.timeoutMs {
        return;
      }
      cmd := STOP;
      timedOut := true;
      if !backendOpen {
        return;
      }
      var written := adapter.Write(STOP, true);
    }

    method ReadChassisSystem(dt: real)
      requires Valid()
      modifies this`systemState, this`backendOpen, adapter`state, adapter.text, adapter.mick
      ensures Valid() && systemState == adapter.state
      ensures adapter.state.pose ==
              IntegratePlanarMotion(cfg.trig, old(adapter.state.pose), adapter.command, Max(0.0, dt))
      ensures adapter.state.wheelSpeeds == EstimateWheelSpeeds(adapter.command, adapter.drive, cfg.geometry)
    {
      var ok := adapter.Read(dt, None, false);
      systemState := adapter.state;
      backendOpen := systemState.backendOpen;
    }

    method IntegrateWheelOdometry(dt: real)
      requires Valid()
      modifies this`wheelPose, this`wheelCommand
      ensures Valid()
      ensures wheelPose == IntegratePlanarMotion(
                cfg.trig, old(wheelPose), EstimateCommandFromWheelSpeeds(systemState.wheelSpeeds, drive, cfg.geometry), dt)
    {
      wheelCommand := EstimateCommandFromWheelSpeeds(systemState.wheelSpeeds, drive, cfg.geometry);
      wheelPose := IntegratePlanarMotion(cfg.trig, wheelPose, wheelCommand, dt);
    }

    method Tick(now: int)
      requires Valid()
      modifies this, adapter, adapter.text, adapter.mick
      ensures Valid() && Abstract() == AfterTick(cfg, old(Abstract()), now)
    {
      hide EstimateWheelSpeeds, EstimateCommandFromWheelSpeeds, IntegratePlanarMotion;
      var dt := Max(0.001, (now - lastUpdate) as real / 1000000000.0);
      lastUpdate := now;
      EnforceCommandTimeout(now);
      ReadChassisSystem(dt);
      IntegrateWheelOdometry(dt);
    }

    method SetChassisMode(mode: string) returns (success: bool)
      requires Valid()
      modifies this`drive, adapter`drive
      ensures Valid() && Abstract() == AfterMode(old(Abstract()), mode)
      ensures success == RequestedDrive(mode).Some?
    {
      var normalized := NormalizeKinematicsModel(mode);
      if mode == "diff_drive" || mode == "mecanum" || mode == "omni" {
        drive := normalized;
        adapter.SetKinematicsModel(mode);
        return true;
      }
      if mode == "ackermann" || mode == "acker" || mode == "four_ws4wd" || mode == "4ws4wd" || mode == "four_wheel_steer" {
        drive := normalized;
        adapter.SetKinematicsModel(mode);
        return true;
      }
      success := false;
    }

    method ResetOdometry()
      requires Valid()
      modifies this, adapter`state
      ensures Valid() && Abstract() == AfterReset(old(Abstract()))
    {
      adapter.ResetOdometry();
      systemState := adapter.state;
      wheelPose := wheelPose.(x := 0.0);
      wheelPose := wheelPose.(y := 0.0);
      wheelPose := wheelPose.(yaw := 0.0);
    }
  }

  // ---------------------------------------------------------------- runs

  datatype Event =
    | Command(now: int, twist: ChassisCommand)
    | TimerTick(now: int)
    | ModeRequest(mode: string)
    | ClearOdometry

  function Step(cfg: Config, s: DriverState, e: Event): DriverState {
    match e
    case Command(now, twist) => AfterCommand(cfg, s, now, twist)
    case TimerTick(now) => AfterTick(cfg, s, now)
    case ModeRequest(mode) => AfterMode(s, mode)
    case ClearOdometry => AfterReset(s)
  }

  function Run(cfg: Config, s: DriverState, events: seq<Event>): DriverState {
    if events == [] then s
    else Step(cfg, Run(cfg, s, events[..|events| - 1]), events[|events| - 1])
  }

  method PlayEvents(driver: ChassisDriver, events: seq<Event>)
    requires driver.Valid()
    modifies driver, driver.adapter, driver.adapter.text, driver.adapter.mick
    ensures driver.Valid() && driver.Abstract() == Run(driver.cfg, old(driver.Abstract()), events)
  {
    ghost var start := driver.Abstract();
    for i := 0 to |events|
      invariant driver.Valid() && driver.Abstract() == Run(driver.cfg, start, events[..i])
    {
      assert events[..i + 1][..i] == events[..i];
      match events[i] {
        case Command(now, twist) => driver.HandleCommand(twist, now);
        case TimerTick(now) => driver.Tick(now);
        case ModeRequest(mode) => var success := driver.SetChassisMode(mode);
        case ClearOdometry => driver.ResetOdometry();
      }
    }
    assert events[..|events|] == events;
  }

  // ---------------------------------------------------------------- the two odometries

  ghost predicate Circle(trig: Trig) {
    forall a: real :: trig.sin(a) * trig.sin(a) + trig.cos(a) * trig.cos(a) == 1.0
  }

  predicate SamePose(s: DriverState) {
    s.pose == s.wheelPose
  }

  /** The watchdog has been applied and a lateral speed is left that diff-drive wheels cannot show. */
  predicate HidesLateral(cfg: Config, s: DriverState, now: int) {
    s.adapterDrive.DiffDrive? && AfterTimeoutCheck(cfg, s, now).command.linearY != 0.0
  }

  /** Dropping the lateral speed changes the motion exactly when there was one. */
  lemma LateralMoves(trig: Trig, pose: PlanarPose, c: ChassisCommand, dt: real)
    requires Circle(trig) && dt > 0.0
    ensures IntegratePlanarMotion(trig, pose, c, dt) == IntegratePlanarMotion(trig, pose, c.(linearY := 0.0), dt) <==>
            c.linearY == 0.0
  {
    var s, k, y := trig.sin(pose.yaw), trig.cos(pose.yaw), c.linearY;
    var a := IntegratePlanarMotion(trig, pose, c, dt);
    var b := IntegratePlanarMotion(trig, pose, c.(linearY := 0.0), dt);
    assert b.x - a.x == y * s * dt && a.y - b.y == y * k * dt;
    if y != 0.0 {
      assert s * s + k * k == 1.0;
      ProductNonZero(y, s, dt);
      ProductNonZero(y, k, dt);
    }
  }

  lemma ProductNonZero(a: real, b: real, c: real)
    requires a != 0.0 && c != 0.0
    ensures a * b * c == 0.0 <==> b == 0.0
  {
  }

  lemma TickLengthPositive(s: DriverState, now: int)
    ensures TickLength(s, now) > 0.0
  {
  }

  /** From equal poses, one tick keeps them equal exactly when it hides no lateral speed. */
  lemma OneTick(cfg: Config, s: DriverState, now: int)
    requires cfg.geometry.Positive() && Circle(cfg.trig) && SamePose(s) && s.drive == s.adapterDrive
    ensures SamePose(AfterTick(cfg, s, now)) <==> !HidesLateral(cfg, s, now)
  {
    hide IntegratePlanarMotion, EstimateWheelSpeeds, EstimateCommandFromWheelSpeeds;
    var c := AfterTimeoutCheck(cfg, s, now).command;
    TickLengthPositive(s, now);
    CommandRoundTrip(c, s.drive, cfg.geometry);
    LateralMoves(cfg.trig, s.pose, c, TickLength(s, now));
  }

  lemma {:induction false} DrivesAgree(cfg: Config, s: DriverState, events: seq<Event>)
    requires s.drive == s.adapterDrive
    ensures Run(cfg, s, events).drive == Run(cfg, s, events).adapterDrive
  {
    if events != [] {
      DrivesAgree(cfg, s, events[..|events| - 1]);
    }
  }

  ghost predicate TickHidesLateral(cfg: Config, s: DriverState, events: seq<Event>, k: nat)
    requires k < |events|
  {
    events[k].TimerTick? && HidesLateral(cfg, Run(cfg, s, events[..k]), events[k].now)
  }

  lemma StepKeepsPoses(cfg: Config, s: DriverState, e: Event)
    requires cfg.geometry.Positive() && Circle(cfg.trig) && SamePose(s) && s.drive == s.adapterDrive
    ensures SamePose(Step(cfg, s, e)) <==> !(e.TimerTick? && HidesLateral(cfg, s, e.now))
  {
    if e.TimerTick? {
      OneTick(cfg, s, e.now);
    }
  }

  lemma RunStep(cfg: Config, s: DriverState, events: seq<Event>, n: nat)
    requires n < |events|
    ensures Run(cfg, s, events[..n + 1]) == Step(cfg, Run(cfg, s, events[..n]), events[n])
  {
    assert events[..n + 1][..n] == events[..n];
  }

  /** Mecanum, a lateral command, a change to diff drive, one tick: the poses part. */
  lemma PosesPart(trig: Trig, g: Geometry)
    requires g.Positive() && Circle(trig)
    ensures var cfg := Config(g, trig, 1.0, 1.0, 500);
      !SamePose(Run(cfg, Initial("mecanum", 0),
                    [Command(0, ChassisCommand(0.0, 1.0, 0.0)), ModeRequest("diff_drive"), TimerTick(20000000)]))
  {
    var cfg, s := Config(g, trig, 1.0, 1.0, 500), Initial("mecanum", 0);
    var events := [Command(0, ChassisCommand(0.0, 1.0, 0.0)), ModeRequest("diff_drive"), TimerTick(20000000)];
    assert events[..0] == [];
    RunStep(cfg, s, events, 0);
    RunStep(cfg, s, events, 1);
    RunStep(cfg, s, events, 2);
    assert events[..3] == events;
    var held := Run(cfg, s, events[..2]);
    hide Run;
    assert held == AfterMode(AfterCommand(cfg, s, 0, ChassisCommand(0.0, 1.0, 0.0)), "diff_drive");
    OneTick(cfg, held, 20000000);
  }

  ghost predicate PosesAgreeUpTo(cfg: Config, s: DriverState, events: seq<Event>, n: nat)
    requires n <= |events|
  {
    forall k | 0 <= k <= n :: SamePose(Run(cfg, s, events[..k]))
  }

  ghost predicate NoLateralHiddenUpTo(cfg: Config, s: DriverState, events: seq<Event>, n: nat)
    requires n <= |events|
  {
    forall k | 0 <= k < n :: !TickHidesLateral(cfg, s, events, k)
  }

  /**
   * The wheel odometry equals the adapter's pose after every step of a run exactly when no tick of the
   * run integrates a lateral speed under diff drive.
   */
  lemma {:induction false} PosesAgreeExactly(cfg: Config, s: DriverState, events: seq<Event>, n: nat)
    requires cfg.geometry.Positive() && Circle(cfg.trig) && SamePose(s) && s.drive == s.adapterDrive
    requires n <= |events|
    ensures PosesAgreeUpTo(cfg, s, events, n) <==> NoLateralHiddenUpTo(cfg, s, events, n)
  {
    hide Step, HidesLateral;
    if n == 0 {
      assert events[..0] == [];
    } else {
      PosesAgreeExactly(cfg, s, events, n - 1);
      DrivesAgree(cfg, s, events[..n - 1]);
      RunStep(cfg, s, events, n - 1);
      if PosesAgreeUpTo(cfg, s, events, n - 1) {
        assert SamePose(Run(cfg, s, events[..n - 1]));
        StepKeepsPoses(cfg, Run(cfg, s, events[..n - 1]), events[n - 1]);
        assert SamePose(Run(cfg, s, events[..n])) <==> !TickHidesLateral(cfg, s, events, n - 1);
        assert PosesAgreeUpTo(cfg, s, events, n) <==> SamePose(Run(cfg, s, events[..n]));
      } else {
        assert !PosesAgreeUpTo(cfg, s, events, n) && !NoLateralHiddenUpTo(cfg, s, events, n);
      }
    }
  }

  /** Changing the mode to diff drive only while no lateral command is held. */
  ghost predicate CarefulModes(cfg: Config, s: DriverState, events: seq<Event>) {
    forall k | 0 <= k < |events| && events[k].ModeRequest? ::
      RequestedDrive(events[k].mode) == Some(DiffDrive) ==> Run(cfg, s, events[..k]).command.linearY == 0.0
  }

  lemma {:induction false} CarefulRunsHideNothing(cfg: Config, s: DriverState, events: seq<Event>)
    requires CarefulModes(cfg, s, events) && NothingHidden(s)
    ensures NothingHidden(Run(cfg, s, events))
  {
    if events != [] {
      hide Step, RequestedDrive, NothingHidden;
      var n := |events| - 1;
      var init := events[..n];
      CarefulPrefix(cfg, s, events, n);
      CarefulRunsHideNothing(cfg, s, init);
      CarefulStep(cfg, Run(cfg, s, init), events[n]);
    }
  }

  predicate NothingHidden(s: DriverState) {
    s.adapterDrive.DiffDrive? ==> s.command.linearY == 0.0
  }

  lemma CarefulStep(cfg: Config, s: DriverState, e: Event)
    requires NothingHidden(s)
    requires e.ModeRequest? && RequestedDrive(e.mode) == Some(DiffDrive) ==> s.command.linearY == 0.0
    ensures NothingHidden(Step(cfg, s, e))
  {
    hide EstimateWheelSpeeds, EstimateCommandFromWheelSpeeds, IntegratePlanarMotion, RequestedDrive, Clamped;
  }

  /** In every careful run the two odometries agree after every step. */
  lemma PosesAgreeInCarefulRuns(cfg: Config, model: string, start: int, events: seq<Event>, k: nat)
    requires cfg.geometry.Positive() && Circle(cfg.trig) && k <= |events|
    requires CarefulModes(cfg, Initial(model, start), events)
    ensures SamePose(Run(cfg, Initial(model, start), events[..k]))
  {
    var s := Initial(model, start);
    forall j | 0 <= j < k
      ensures !TickHidesLateral(cfg, s, events, j)
    {
      CarefulPrefix(cfg, s, events, j);
      CarefulRunsHideNothing(cfg, s, events[..j]);
    }
    PosesAgreeExactly(cfg, s, events, k);
  }

  lemma CarefulPrefix(cfg: Config, s: DriverState, events: seq<Event>, j: nat)
    requires j <= |events| && CarefulModes(cfg, s, events)
    ensures CarefulModes(cfg, s, events[..j])
  {
    assert forall k | 0 <= k < j :: events[..j][..k] == events[..k] && events[..j][k] == events[k];
  }

  // ---------------------------------------------------------------- the command watchdog

  /** The last velocity command of a run: when it came, what it asked for, and the drive model it met. */
  datatype Held = Held(now: int, twist: ChassisCommand, drive: Drive)

  function DriveAfter(drive: Drive, events: seq<Event>): Drive {
    if events == [] then drive
    else
      var e := events[|events| - 1];
      if e.ModeRequest? && RequestedDrive(e.mode).Some? then RequestedDrive(e.mode).value
      else DriveAfter(drive, events[..|events| - 1])
  }

  function LastCommand(drive: Drive, events: seq<Event>): Option<Held> {
    if events == [] then None
    else
      var init := events[..|events| - 1];
      match events[|events| - 1]
      case Command(now, twist) => Some(Held(now, twist, DriveAfter(drive, init)))
      case _ => LastCommand(drive, init)
  }

  predicate Expired(cfg: Config, held: Held, now: int) {
    cfg.timeoutMs > 0 && Milliseconds(now - held.now) > cfg.timeoutMs
  }

  /** What a tick at `now` may integrate: the clamped last command unless it is missing or too old. */
  function SafeCommand(cfg: Config, drive: Drive, events: seq<Event>, now: int): ChassisCommand {
    match LastCommand(drive, events)
    case None => STOP
    case Some(held) =>
      if Expired(cfg, held, now) then STOP else NormalizeCommand(held.drive, Clamped(cfg, held.twist))
  }

  /** Clock readings never go back; `latest` is the last one before these events. */
  predicate Timely(latest: int, events: seq<Event>) {
    events == [] ||
    (Timely(latest, events[..|events| - 1]) &&
     match events[|events| - 1]
     case Command(now, _) => now >= LatestTime(latest, events[..|events| - 1])
     case TimerTick(now) => now >= LatestTime(latest, events[..|events| - 1])
     case _ => true)
  }

  function LatestTime(latest: int, events: seq<Event>): int {
    if events == [] then latest
    else
      match events[|events| - 1]
      case Command(now, _) => now
      case TimerTick(now) => now
      case _ => LatestTime(latest, events[..|events| - 1])
  }

  /** How the driver's fields reflect the history. */
  ghost predicate Reflects(cfg: Config, drive: Drive, latest: int, events: seq<Event>, s: DriverState) {
    && s.adapterDrive == DriveAfter(drive, events)
    && match LastCommand(drive, events)
       case None => !s.received && s.command == STOP
       case Some(held) =>
         && s.received && s.lastCommand == held.now
         && (s.timedOut ==> s.command == STOP && Expired(cfg, held, LatestTime(latest, events)))
         && (!s.timedOut ==> s.command == NormalizeCommand(held.drive, Clamped(cfg, held.twist)))
  }

  lemma MillisecondsMonotone(a: int, b: int)
    requires a <= b
    ensures Milliseconds(a) <= Milliseconds(b)
  {
  }

  lemma {:induction false} HistoryIsReflected(cfg: Config, model: string, start: int, events: seq<Event>)
    requires Timely(start, events)
    ensures Reflects(cfg, NormalizeKinematicsModel(model), start, events, Run(cfg, Initial(model, start), events))
  {
    hide Clamped, Move, RequestedDrive, NormalizeKinematicsModel, Milliseconds;
    if events != [] {
      var init := events[..|events| - 1];
      HistoryIsReflected(cfg, model, start, init);
      ReflectedStep(cfg, NormalizeKinematicsModel(model), start, events, Run(cfg, Initial(model, start), init));
    }
  }

  lemma ReflectedStep(cfg: Config, drive: Drive, start: int, events: seq<Event>, s: DriverState)
    requires events != [] && Timely(start, events)
    requires Reflects(cfg, drive, start, events[..|events| - 1], s)
    ensures Reflects(cfg, drive, start, events, Step(cfg, s, events[|events| - 1]))
  {
    hide Clamped, RequestedDrive, EstimateWheelSpeeds, EstimateCommandFromWheelSpeeds, IntegratePlanarMotion, TickLength, Milliseconds;
    var init, e := events[..|events| - 1], events[|events| - 1];
    var held := LastCommand(drive, init);
    if e.TimerTick? && held.Some? {
      MillisecondsMonotone(LatestTime(start, init) - held.value.now, e.now - held.value.now);
    }
  }

  /**
   * In every run with nondecreasing clock readings, what a tick integrates is exactly the safe command:
   * the clamped last command while its age in whole milliseconds is within the timeout, a stop otherwise.
   */
  lemma TicksIntegrateTheSafeCommand(cfg: Config, model: string, start: int, events: seq<Event>, now: int)
    requires Timely(start, events) && now >= LatestTime(start, events)
    ensures AfterTimeoutCheck(cfg, Run(cfg, Initial(model, start), events), now).command ==
            SafeCommand(cfg, NormalizeKinematicsModel(model), events, now)
  {
    hide Clamped, Milliseconds, NormalizeKinematicsModel, Run;
    var drive := NormalizeKinematicsModel(model);
    HistoryIsReflected(cfg, model, start, events);
    var held := LastCommand(drive, events);
    if held.Some? {
      MillisecondsMonotone(LatestTime(start, events) - held.value.now, now - held.value.now);
    }
  }

  lemma TimelyPrefix(start: int, events: seq<Event>, k: nat)
    requires k < |events| && Timely(start, events[..k + 1])
    ensures Timely(start, events[..k])
    ensures events[k].TimerTick? ==> events[k].now >= LatestTime(start, events[..k])
  {
    assert events[..k + 1][..k] == events[..k] && events[..k + 1][k] == events[k];
  }

  /** Read off the history: tick `k` finds diff drive and a last command whose safe form is lateral. */
  predicate TickMeetsLateral(cfg: Config, drive: Drive, events: seq<Event>, k: nat)
    requires k < |events|
  {
    events[k].TimerTick? && DriveAfter(drive, events[..k]).DiffDrive? && SafeCommand(cfg, drive, events[..k], events[k].now).linearY != 0.0
  }

  lemma HiddenLateralIsInTheHistory(cfg: Config, model: string, start: int, events: seq<Event>, k: nat)
    requires k < |events| && Timely(start, events[..k + 1])
    ensures TickHidesLateral(cfg, Initial(model, start), events, k) <==> TickMeetsLateral(cfg, NormalizeKinematicsModel(model), events, k)
  {
    TimelyPrefix(start, events, k);
    hide Run, SafeCommand, DriveAfter, NormalizeKinematicsModel, AfterTimeoutCheck, LastCommand, Clamped, Timely, LatestTime;
    if events[k].TimerTick? {
      TicksIntegrateTheSafeCommand(cfg, model, start, events[..k], events[k].now);
      HistoryIsReflected(cfg, model, start, events[..k]);
    }
  }

  lemma {:induction false} TimelyPrefixes(start: int, events: seq<Event>, k: nat)
    requires k <= |events| && Timely(start, events)
    ensures Timely(start, events[..k])
    decreases |events| - k
  {
    if k < |events| {
      TimelyPrefixes(start, events, k + 1);
      TimelyPrefix(start, events, k);
    } else {
      assert events[..k] == events;
    }
  }

  /**
   * Whether the two odometries agree after every step is decided by what the callers sent: they do exactly when
   * no tick comes in diff drive with a lateral last command that has not expired.
   */
  lemma PosesAgreeByHistory(cfg: Config, model: string, start: int, events: seq<Event>)
    requires cfg.geometry.Positive() && Circle(cfg.trig) && Timely(start, events)
    ensures PosesAgreeUpTo(cfg, Initial(model, start), events, |events|) <==>
            forall k: nat | k < |events| :: !TickMeetsLateral(cfg, NormalizeKinematicsModel(model), events, k)
  {
    hide TickHidesLateral, TickMeetsLateral, PosesAgreeUpTo, Timely, NormalizeKinematicsModel;
    PosesAgreeExactly(cfg, Initial(model, start), events, |events|);
    forall k: nat | k < |events|
      ensures TickHidesLateral(cfg, Initial(model, start), events, k) <==>
              TickMeetsLateral(cfg, NormalizeKinematicsModel(model), events, k)
    {
      TimelyPrefixes(start, events, k + 1);
      HiddenLateralIsInTheHistory(cfg, model, start, events, k);
    }
  }

  /** What a limit leaves of a speed that was sent: a limit that is not positive limits nothing. */
  ghost predicate LimitedTo(held: real, sent: real, limit: real) {
    && (limit <= 0.0 || -limit <= sent <= limit ==> held == sent)
    && (0.0 < limit < sent ==> held == limit)
    && (0.0 < limit < -sent ==> held == -limit)
  }

  lemma ClampLimits(value: real, limit: real)
    ensures LimitedTo(ClampMagnitude(value, limit), value, limit)
  {
  }

  lemma WholeMilliseconds(ns: int, limit: int)
    requires limit > 0
    ensures Milliseconds(ns) > limit <==> ns >= (limit + 1) * 1000000
  {
  }

  /**
   * In every run with nondecreasing clock readings, a tick integrates the last command as it was sent, up to the
   * limits and without its lateral part under diff drive, until the timeout and a whole further millisecond have
   * passed since; then, and before any command, it integrates a stop.
   */
  lemma TicksIntegrateWhatWasSent(cfg: Config, model: string, start: int, events: seq<Event>, now: int)
    requires Timely(start, events) && now >= LatestTime(start, events)
    ensures var c := AfterTimeoutCheck(cfg, Run(cfg, Initial(model, start), events), now).command;
      match LastCommand(NormalizeKinematicsModel(model), events)
      case None => c == STOP
      case Some(held) =>
        if cfg.timeoutMs > 0 && now - held.now >= (cfg.timeoutMs + 1) * 1000000 then c == STOP
        else
          && LimitedTo(c.linearX, held.twist.linearX, cfg.maxLinear)
          && LimitedTo(c.angularZ, held.twist.angularZ, cfg.maxAngular)
          && if held.drive.DiffDrive? then c.linearY == 0.0 else LimitedTo(c.linearY, held.twist.linearY, cfg.maxLinear)
  {
    hide Milliseconds, NormalizeKinematicsModel, Run, AfterTimeoutCheck, ClampMagnitude, LimitedTo, Timely, LatestTime;
    TicksIntegrateTheSafeCommand(cfg, model, start, events, now);
    match LastCommand(NormalizeKinematicsModel(model), events)
    case None =>
    case Some(held) =>
      if cfg.timeoutMs > 0 {
        WholeMilliseconds(now - held.now, cfg.timeoutMs);
      }
      ClampLimits(held.twist.linearX, cfg.maxLinear);
      ClampLimits(held.twist.linearY, cfg.maxLinear);
      ClampLimits(held.twist.angularZ, cfg.maxAngular);
  }

  /** The time of the last tick, or of the start. */
  function LastTick(start: int, events: seq<Event>): int {
    if events == [] then start
    else
      match events[|events| - 1]
      case TimerTick(now) => now
      case _ => LastTick(start, events[..|events| - 1])
  }

  lemma {:induction false} LastUpdateIsLastTick(cfg: Config, model: string, start: int, events: seq<Event>)
    ensures Run(cfg, Initial(model, start), events).lastUpdate == LastTick(start, events)
  {
    hide EstimateWheelSpeeds, EstimateCommandFromWheelSpeeds, IntegratePlanarMotion, TickLength, Clamped, NormalizeCommand,
         NormalizeKinematicsModel, RequestedDrive, Milliseconds;
    if events != [] {
      LastUpdateIsLastTick(cfg, model, start, events[..|events| - 1]);
    }
  }

  /** Seconds since the last tick, at least one millisecond. */
  ghost predicate ElapsedSeconds(dt: real, ns: int) {
    if ns < 1000000 then dt * 1000.0 == 1.0 else dt * 1000000000.0 == ns as real
  }

  /**
   * A tick moves the robot, seen from its own frame, by the command it integrates times the seconds since the last
   * tick, at least one millisecond.
   */
  lemma TicksMoveByElapsedTime(cfg: Config, model: string, start: int, events: seq<Event>, now: int, dt: real)
    requires Circle(cfg.trig) && ElapsedSeconds(dt, now - LastTick(start, events))
    ensures var s := Run(cfg, Initial(model, start), events);
      var c, next := AfterTimeoutCheck(cfg, s, now).command, AfterTick(cfg, s, now);
      var k, l := cfg.trig.cos(s.pose.yaw), cfg.trig.sin(s.pose.yaw);
      && (next.pose.x - s.pose.x) * k + (next.pose.y - s.pose.y) * l == c.linearX * dt
      && (next.pose.y - s.pose.y) * k - (next.pose.x - s.pose.x) * l == c.linearY * dt
  {
    hide EstimateWheelSpeeds, EstimateCommandFromWheelSpeeds, IntegratePlanarMotion, Run, Initial, LastTick;
    var s := Run(cfg, Initial(model, start), events);
    LastUpdateIsLastTick(cfg, model, start, events);
    TickLengthIs(s, now, dt);
    MotionInTheBodyFrame(cfg.trig, s.pose, AfterTimeoutCheck(cfg, s, now).command, dt);
  }

  lemma TickLengthIs(s: DriverState, now: int, dt: real)
    requires ElapsedSeconds(dt, now - s.lastUpdate)
    ensures TickLength(s, now) == dt > 0.0 && Max(0.0, dt) == dt
  {
  }

  predicate WithinLimits(cfg: Config, c: ChassisCommand) {
    && (cfg.maxLinear > 0.0 ==> Abs(c.linearX) <= cfg.maxLinear && Abs(c.linearY) <= cfg.maxLinear)
    && (cfg.maxAngular > 0.0 ==> Abs(c.angularZ) <= cfg.maxAngular)
  }

  /** No tick integrates a command older than the timeout, nor one beyond the configured limits. */
  lemma WatchdogIsSafe(cfg: Config, model: string, start: int, events: seq<Event>, now: int)
    requires Timely(start, events) && now >= LatestTime(start, events) && cfg.timeoutMs > 0
    ensures var c := AfterTimeoutCheck(cfg, Run(cfg, Initial(model, start), events), now).command;
      && WithinLimits(cfg, c)
      && (c != STOP ==>
            var held := LastCommand(NormalizeKinematicsModel(model), events);
            held.Some? && Milliseconds(now - held.value.now) <= cfg.timeoutMs)
  {
    hide Run, NormalizeKinematicsModel, AfterTimeoutCheck, Milliseconds;
    TicksIntegrateTheSafeCommand(cfg, model, start, events, now);
  }
}
