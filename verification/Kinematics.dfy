// chassis_kinematics.cpp over the reals.  Trigonometry is a parameter.
module Kinematics {
  import opened Common
  import opened ChassisPacket

  const PI := 3.14159265358979323846

  datatype PlanarPose = PlanarPose(x: real, y: real, yaw: real)

  /** Wheel speeds in rpm, in the order front left, front right, rear left, rear right. */
  datatype WheelSpeeds = WheelSpeeds(fl: real, fr: real, rl: real, rr: real)

  datatype Geometry = Geometry(wheelDiameter: real, wheelBase: real, trackWidth: real) {
    predicate Positive() {
      wheelDiameter > 0.0 && wheelBase > 0.0 && trackWidth > 0.0
    }
  }

  datatype Trig = Trig(sin: real -> real, cos: real -> real, atan2: (real, real) -> real)

  /** The two normalised model names, "diff_drive" and "mecanum"; normalising them again changes nothing. */
  datatype Drive = DiffDrive | Mecanum

  function NormalizeKinematicsModel(model: string): Drive {
    if model == "mecanum" || model == "omni" then Mecanum else DiffDrive
  }

  function WheelRpmFromLinear(speed: real, wheelDiameter: real): real {
    if wheelDiameter <= 0.0 then 0.0 else speed / (wheelDiameter * PI) * 60.0
  }

  function WheelLinearFromRpm(rpm: real, wheelDiameter: real): real {
    if wheelDiameter <= 0.0 then 0.0 else rpm / 60.0 * wheelDiameter * PI
  }

  function Turned(yaw: real, rate: real, dt: real): real {
    yaw + rate * dt
  }

  function IntegratePlanarMotion(trig: Trig, pose: PlanarPose, command: ChassisCommand, dtSeconds: real): PlanarPose {
    var dt := Max(0.0, dtSeconds);
    var c, s := trig.cos(pose.yaw), trig.sin(pose.yaw);
    var yaw := Turned(pose.yaw, command.angularZ, dt);
    PlanarPose(
      pose.x + (command.linearX * c - command.linearY * s) * dt,
      pose.y + (command.linearX * s + command.linearY * c) * dt,
      trig.atan2(trig.sin(yaw), trig.cos(yaw)))
  }

  /**
   * Seen from the robot's own frame at the start, the displacement is the commanded velocity times the
   * non-negative time.
   */
  lemma MotionInTheBodyFrame(trig: Trig, pose: PlanarPose, command: ChassisCommand, dtSeconds: real)
    requires trig.sin(pose.yaw) * trig.sin(pose.yaw) + trig.cos(pose.yaw) * trig.cos(pose.yaw) == 1.0
    ensures var next := IntegratePlanarMotion(trig, pose, command, dtSeconds);
      var c, s, dt := trig.cos(pose.yaw), trig.sin(pose.yaw), Max(0.0, dtSeconds);
      && (next.x - pose.x) * c + (next.y - pose.y) * s == command.linearX * dt
      && (next.y - pose.y) * c - (next.x - pose.x) * s == command.linearY * dt
  {
    var c, s, dt := trig.cos(pose.yaw), trig.sin(pose.yaw), Max(0.0, dtSeconds);
    var dx, dy := Displacement(trig, pose, command, dtSeconds);
    hide IntegratePlanarMotion, Max;
    RotateBack(command.linearX, command.linearY, c, s, dt, dx, dy);
  }

  lemma Displacement(trig: Trig, pose: PlanarPose, command: ChassisCommand, dtSeconds: real) returns (dx: real, dy: real)
    ensures var next := IntegratePlanarMotion(trig, pose, command, dtSeconds);
      var c, s, dt := trig.cos(pose.yaw), trig.sin(pose.yaw), Max(0.0, dtSeconds);
      && dx == next.x - pose.x == (command.linearX * c - command.linearY * s) * dt
      && dy == next.y - pose.y == (command.linearX * s + command.linearY * c) * dt
  {
    var next := IntegratePlanarMotion(trig, pose, command, dtSeconds);
    dx, dy := next.x - pose.x, next.y - pose.y;
  }

  lemma RotateBack(u: real, v: real, c: real, s: real, dt: real, dx: real, dy: real)
    requires s * s + c * c == 1.0 && dx == (u * c - v * s) * dt && dy == (u * s + v * c) * dt
    ensures dx * c + dy * s == u * dt && dy * c - dx * s == v * dt
  {
    var a, b := u * c - v * s, u * s + v * c;
    assert a * c + b * s == u * (s * s + c * c);
    assert b * c - a * s == v * (s * s + c * c);
    Regroup(a, c, b, s, dt);
    Regroup(b, c, a, -s, dt);
  }

  lemma Regroup(a: real, c: real, b: real, s: real, k: real)
    ensures a * k * c + b * k * s == (a * c + b * s) * k
  {
    assert a * k * c == a * c * k && b * k * s == b * s * k;
  }

  /** The lever arm that turns a yaw rate into a wheel speed. */
  function Radius(model: Drive, g: Geometry): real {
    if model.Mecanum? then (g.wheelBase + g.trackWidth) * 0.5 else g.trackWidth * 0.5
  }

  function TurnSpeed(angularZ: real, model: Drive, g: Geometry): real {
    Radius(model, g) * angularZ
  }

  function EstimateWheelSpeeds(command: ChassisCommand, model: Drive, g: Geometry): WheelSpeeds {
    var d, turn := g.wheelDiameter, TurnSpeed(command.angularZ, model, g);
    if model.Mecanum? then
      WheelSpeeds(
        WheelRpmFromLinear(command.linearX - command.linearY - turn, d),
        WheelRpmFromLinear(command.linearX + command.linearY + turn, d),
        WheelRpmFromLinear(command.linearX + command.linearY - turn, d),
        WheelRpmFromLinear(command.linearX - command.linearY + turn, d))
    else
      var left := WheelRpmFromLinear(command.linearX - turn, d);
      var right := WheelRpmFromLinear(command.linearX + turn, d);
      WheelSpeeds(left, right, left, right)
  }

  function EstimateCommandFromWheelSpeeds(speeds: WheelSpeeds, model: Drive, g: Geometry): ChassisCommand {
    var fl := WheelLinearFromRpm(speeds.fl, g.wheelDiameter);
    var fr := WheelLinearFromRpm(speeds.fr, g.wheelDiameter);
    var rl := WheelLinearFromRpm(speeds.rl, g.wheelDiameter);
    var rr := WheelLinearFromRpm(speeds.rr, g.wheelDiameter);
    if model.Mecanum? then
      var radius := (g.wheelBase + g.trackWidth) * 0.5;
      ChassisCommand(
        (fl + fr + rl + rr) * 0.25,
        (-fl + fr + rl - rr) * 0.25,
        if radius > 0.0 then (-fl + fr - rl + rr) / (4.0 * radius) else 0.0)
    else
      var left, right := (fl + rl) * 0.5, (fr + rr) * 0.5;
      ChassisCommand(
        (left + right) * 0.5, 0.0,
        if g.trackWidth > 0.0 then (right - left) / g.trackWidth else 0.0)
  }

  // ---------------------------------------------------------------- the wheels on the ground

  /** In a minute a turning wheel rolls off its circumference for each revolution. */
  lemma RollsItsCircumference(v: real, d: real)
    ensures d > 0.0 ==> WheelRpmFromLinear(v, d) * (d * PI) == v * 60.0
    ensures d <= 0.0 ==> WheelRpmFromLinear(v, d) == 0.0
  {
    if d > 0.0 {
      var rpm, c := WheelRpmFromLinear(v, d), d * PI;
      CancelProduct(v, c);
      var turns := v / c;
      assert rpm == turns * 60.0;
      assert turns * 60.0 * c == turns * c * 60.0;
    }
  }

  /** The forward speed over the ground of a point `y` to the left of the robot's centre. */
  function ForwardAt(c: ChassisCommand, y: real): real {
    c.linearX - c.angularZ * y
  }

  /** The leftward speed over the ground of a point `x` ahead of the robot's centre. */
  function LeftwardAt(c: ChassisCommand, x: real): real {
    c.linearY + c.angularZ * x
  }

  /**
   * Each wheel turns as the rigid body moves over its spot: plain wheels by the forward speed there, mecanum wheels
   * by the forward speed with the leftward speed added or taken off as their rollers slant.
   */
  lemma WheelsFollowTheBody(c: ChassisCommand, model: Drive, g: Geometry)
    ensures var w, d, a, b := EstimateWheelSpeeds(c, model, g), g.wheelDiameter, g.wheelBase / 2.0, g.trackWidth / 2.0;
      if model.Mecanum? then
        && w.fl == WheelRpmFromLinear(ForwardAt(c, b) - LeftwardAt(c, a), d)
        && w.fr == WheelRpmFromLinear(ForwardAt(c, -b) + LeftwardAt(c, a), d)
        && w.rl == WheelRpmFromLinear(ForwardAt(c, b) + LeftwardAt(c, -a), d)
        && w.rr == WheelRpmFromLinear(ForwardAt(c, -b) - LeftwardAt(c, -a), d)
      else
        && w.fl == w.rl == WheelRpmFromLinear(ForwardAt(c, b), d)
        && w.fr == w.rr == WheelRpmFromLinear(ForwardAt(c, -b), d)
  {
    var a, b := g.wheelBase / 2.0, g.trackWidth / 2.0;
    TurnIsLever(c.angularZ, model, g, a, b);
    hide WheelRpmFromLinear, TurnSpeed;
    OppositeSpots(c, a, b);
    var x, y, turn := c.linearX, c.linearY, TurnSpeed(c.angularZ, model, g);
    if model.Mecanum? {
      assert ForwardAt(c, b) - LeftwardAt(c, a) == x - y - turn;
      assert ForwardAt(c, -b) + LeftwardAt(c, a) == x + y + turn;
      assert ForwardAt(c, b) + LeftwardAt(c, -a) == x + y - turn;
      assert ForwardAt(c, -b) - LeftwardAt(c, -a) == x - y + turn;
    } else {
      assert ForwardAt(c, b) == x - turn && ForwardAt(c, -b) == x + turn;
    }
  }

  lemma TurnIsLever(w: real, model: Drive, g: Geometry, a: real, b: real)
    requires a == g.wheelBase / 2.0 && b == g.trackWidth / 2.0
    ensures TurnSpeed(w, model, g) == if model.Mecanum? then w * a + w * b else w * b
  {
    var radius := Radius(model, g);
    assert radius == if model.Mecanum? then a + b else b;
  }

  lemma OppositeSpots(c: ChassisCommand, a: real, b: real)
    ensures ForwardAt(c, -b) == c.linearX + c.angularZ * b && LeftwardAt(c, -a) == c.linearY - c.angularZ * a
  {
  }

  ghost predicate KeepsDirection(trig: Trig, a: real) {
    var b := trig.atan2(trig.sin(a), trig.cos(a));
    trig.sin(b) == trig.sin(a) && trig.cos(b) == trig.cos(a)
  }

  /** Where atan2 undoes sine and cosine, the robot then faces its old heading turned by the yaw rate times the time. */
  lemma HeadingAdvances(trig: Trig, pose: PlanarPose, command: ChassisCommand, dtSeconds: real, heading: real)
    requires forall a: real :: KeepsDirection(trig, a)
    requires heading == pose.yaw + command.angularZ * Max(0.0, dtSeconds)
    ensures var next := IntegratePlanarMotion(trig, pose, command, dtSeconds);
      trig.sin(next.yaw) == trig.sin(heading) && trig.cos(next.yaw) == trig.cos(heading)
  {
    assert heading == Turned(pose.yaw, command.angularZ, Max(0.0, dtSeconds));
    assert KeepsDirection(trig, heading);
    hide Turned;
  }

  // ---------------------------------------------------------------- the two estimates are inverse

  lemma CancelProduct(v: real, d: real)
    requires d != 0.0
    ensures v / d * d == v && v * d / d == v
  {
  }

  lemma RpmAndBack(v: real, d: real)
    requires d > 0.0
    ensures WheelLinearFromRpm(WheelRpmFromLinear(v, d), d) == v
    ensures WheelRpmFromLinear(WheelLinearFromRpm(v, d), d) == v
  {
    var c := d * PI;
    CancelProduct(v, c);
    assert v / c * 60.0 / 60.0 * d * PI == v / c * c;
    var u := v / 60.0;
    CancelProduct(u, c);
    assert u * d * PI == u * c;
  }

  lemma TurnAndBack(w: real, model: Drive, g: Geometry)
    requires g.Positive()
    ensures var turn := TurnSpeed(w, model, g);
      && (model.Mecanum? ==> (4.0 * turn) / (4.0 * ((g.wheelBase + g.trackWidth) * 0.5)) == w)
      && (model.DiffDrive? ==> (2.0 * turn) / g.trackWidth == w)
  {
    var radius := Radius(model, g);
    if model.Mecanum? {
      assert 4.0 * (radius * w) == w * (4.0 * radius);
      CancelProduct(w, 4.0 * radius);
    } else {
      assert 2.0 * (radius * w) == w * g.trackWidth;
      CancelProduct(w, g.trackWidth);
    }
  }

  /** Estimating the command back from the wheel speeds it produces loses only a lateral speed under diff drive. */
  lemma CommandRoundTrip(command: ChassisCommand, model: Drive, g: Geometry)
    requires g.Positive()
    ensures EstimateCommandFromWheelSpeeds(EstimateWheelSpeeds(command, model, g), model, g) ==
            if model.Mecanum? then command else command.(linearY := 0.0)
  {
    hide WheelRpmFromLinear, WheelLinearFromRpm, TurnSpeed;
    var x, y, turn := command.linearX, command.linearY, TurnSpeed(command.angularZ, model, g);
    TurnAndBack(command.angularZ, model, g);
    if model.Mecanum? {
      RpmAndBack(x - y - turn, g.wheelDiameter);
      RpmAndBack(x + y + turn, g.wheelDiameter);
      RpmAndBack(x + y - turn, g.wheelDiameter);
      RpmAndBack(x - y + turn, g.wheelDiameter);
    } else {
      RpmAndBack(x - turn, g.wheelDiameter);
      RpmAndBack(x + turn, g.wheelDiameter);
      var right, left := ((x + turn) + (x + turn)) * 0.5, ((x - turn) + (x - turn)) * 0.5;
      assert right - left == 2.0 * turn;
    }
  }

  /** Wheel speeds some command can produce: no slip between the axles, or equal wheels on each side. */
  predicate Consistent(w: WheelSpeeds, model: Drive) {
    if model.Mecanum? then w.fl + w.fr == w.rl + w.rr
    else w.fl == w.rl && w.fr == w.rr
  }

  /** The other direction: measured wheel speeds are reproduced exactly when they are consistent. */
  lemma WheelSpeedsRoundTrip(w: WheelSpeeds, model: Drive, g: Geometry)
    requires g.Positive()
    ensures EstimateWheelSpeeds(EstimateCommandFromWheelSpeeds(w, model, g), model, g) == w <==> Consistent(w, model)
  {
    var d := g.wheelDiameter;
    var v := WheelSpeeds(WheelLinearFromRpm(w.fl, d), WheelLinearFromRpm(w.fr, d),
                         WheelLinearFromRpm(w.rl, d), WheelLinearFromRpm(w.rr, d));
    RpmAndBack(w.fl, d);
    RpmAndBack(w.fr, d);
    RpmAndBack(w.rl, d);
    RpmAndBack(w.rr, d);
    LinearConsistent(w, v, model, g);
    WheelsReproduced(w, v, model, g);
  }

  ghost predicate LinearSpeeds(w: WheelSpeeds, v: WheelSpeeds, d: real) {
    && v.fl == WheelLinearFromRpm(w.fl, d) && w.fl == WheelRpmFromLinear(v.fl, d)
    && v.fr == WheelLinearFromRpm(w.fr, d) && w.fr == WheelRpmFromLinear(v.fr, d)
    && v.rl == WheelLinearFromRpm(w.rl, d) && w.rl == WheelRpmFromLinear(v.rl, d)
    && v.rr == WheelLinearFromRpm(w.rr, d) && w.rr == WheelRpmFromLinear(v.rr, d)
  }

  lemma ScaleSum(a: real, b: real, c: real, e: real, k: real)
    requires k != 0.0
    ensures a * k + b * k == c * k + e * k <==> a + b == c + e
  {
    assert a * k + b * k == (a + b) * k && c * k + e * k == (c + e) * k;
    CancelProduct(a + b, k);
    CancelProduct(c + e, k);
  }

  lemma LinearConsistent(w: WheelSpeeds, v: WheelSpeeds, model: Drive, g: Geometry)
    requires g.Positive() && LinearSpeeds(w, v, g.wheelDiameter)
    ensures Consistent(v, model) <==> Consistent(w, model)
  {
    var k := g.wheelDiameter * PI / 60.0;
    assert v.fl == w.fl * k && v.fr == w.fr * k && v.rl == w.rl * k && v.rr == w.rr * k;
    ScaleSum(w.fl, w.fr, w.rl, w.rr, k);
  }

  /** The turn speed of the estimated yaw rate is a quarter, or half, of the wheel speed imbalance. */
  lemma TurnOfEstimate(w: WheelSpeeds, v: WheelSpeeds, model: Drive, g: Geometry)
    requires g.Positive() && LinearSpeeds(w, v, g.wheelDiameter)
    ensures TurnSpeed(EstimateCommandFromWheelSpeeds(w, model, g).angularZ, model, g) ==
            (-v.fl + v.fr - v.rl + v.rr) * 0.25
  {
    hide WheelRpmFromLinear, WheelLinearFromRpm;
    var radius := Radius(model, g);
    var angular := EstimateCommandFromWheelSpeeds(w, model, g).angularZ;
    if model.Mecanum? {
      var x := -v.fl + v.fr - v.rl + v.rr;
      CancelProduct(x, 4.0 * radius);
      assert angular == x / (4.0 * radius);
      assert radius * angular == (angular * (4.0 * radius)) * 0.25;
    } else {
      var x := (v.fr + v.rr) * 0.5 - (v.fl + v.rl) * 0.5;
      CancelProduct(x, g.trackWidth);
      assert angular == x / g.trackWidth;
      assert radius * angular == (angular * g.trackWidth) * 0.5;
    }
  }

  lemma WheelsReproduced(w: WheelSpeeds, v: WheelSpeeds, model: Drive, g: Geometry)
    requires g.Positive() && LinearSpeeds(w, v, g.wheelDiameter)
    ensures EstimateWheelSpeeds(EstimateCommandFromWheelSpeeds(w, model, g), model, g) == w <==> Consistent(v, model)
  {
    TurnOfEstimate(w, v, model, g);
    hide WheelRpmFromLinear, WheelLinearFromRpm, TurnSpeed;
    var c := EstimateCommandFromWheelSpeeds(w, model, g);
    var x, y, turn := c.linearX, c.linearY, TurnSpeed(c.angularZ, model, g);
    if model.Mecanum? {
      RpmAndBack(x - y - turn, g.wheelDiameter);
      RpmAndBack(x + y + turn, g.wheelDiameter);
      RpmAndBack(x + y - turn, g.wheelDiameter);
      RpmAndBack(x - y + turn, g.wheelDiameter);
    } else {
      RpmAndBack(x - turn, g.wheelDiameter);
      RpmAndBack(x + turn, g.wheelDiameter);
    }
  }
}
