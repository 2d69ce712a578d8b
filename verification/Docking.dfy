/** The docking mode machine of the service node, ticked every 10 ms. Square roots and
    arc tangents of the tag pose are supplied by the environment. */
module Docking {
  import opened Bytes

  datatype Velocity = Velocity(linear: real, angular: real)

  const STOPPED: Velocity := Velocity(0.0, 0.0)

  /** What the sensors and callbacks have left in the globals when a tick runs. */
  datatype Sensors = Sensors(
    tagId: int,
    distance: real,
    heading: real,
    pitch: real,
    poseX: real,
    obstacleRear: bool,
    obstacleLeft: bool,
    obstacleRight: bool,
    initialPose: bool,
    charging: int,
    exitRobot: bool,
    exitFlag: bool)

  datatype State = State(
    mode: int,
    noMarkerCnt: int,
    rotationCnt: int,
    backCnt: int,
    rotationMode: int,
    homeId: int,
    dockingId: int,
    targetYaw: real,
    cmd: Velocity,
    published: seq<Velocity>,
    goals: nat)

  function Publish(s: State, v: Velocity): State {
    s.(cmd := v, published := s.published + [v])
  }

  /** `Docking_EXIT`. */
  function Exit(s: State): State {
    Publish(s, STOPPED).(mode := 0)
  }

  /** `Rotation_Movement`: the rotation mode it selects and the turn rate. */
  function RotationModeOf(s: State, e: Sensors): int {
    if e.obstacleRight then 1 else if e.obstacleLeft then 2 else s.rotationMode
  }

  function RotationRate(mode: int): real {
    if mode == 1 then -0.1 else 0.1
  }

  /** `ChargingStation_tracking(true, id)`. */
  function Tracking(s: State, e: Sensors): State {
    if e.tagId == s.homeId then
      if e.distance > 0.65 then
        var linear := e.distance / 1.2 * 0.15;
        var angular := -e.heading / 1.25;
        if linear > 1.0 then s.(cmd := STOPPED)
        else if angular > 1.0 || angular < -1.0 then s.(cmd := STOPPED)
        else Publish(s, Velocity(linear, angular))
      else
        Publish(s, s.cmd.(linear := 0.0)).(
          targetYaw := e.pitch,
          mode := if -0.0174533 <= e.pitch <= 0.0174533 then 4 else 3,
          noMarkerCnt := 0)
    else
      var m := RotationModeOf(s, e);
      var s1 := Publish(s.(rotationMode := m), s.cmd.(angular := RotationRate(m)));
      if s1.noMarkerCnt > 8000 then Publish(s1, STOPPED).(noMarkerCnt := 0, mode := 9)
      else s1.(noMarkerCnt := s1.noMarkerCnt + 1)
  }

  /** `ChargingStation_Yaw_tracking`. */
  function YawTracking(s: State, e: Sensors): State {
    if -0.0174533 / 1.5 <= s.targetYaw <= 0.0174533 / 1.5 then s.(mode := 4)
    else
      var s1 :=
        if s.rotationCnt <= 100 then
          if e.obstacleRear then Publish(s, STOPPED)
          else Publish(s, Velocity(-e.distance * 0.1, -s.targetYaw * 2.8)).(rotationCnt := s.rotationCnt + 1)
        else s.(rotationCnt := 0, mode := 31);
      s1.(rotationMode := if s.targetYaw > 0.0 then 2 else 1)
  }

  /** `ChargingStation_back_step`. */
  function BackStep(s: State, e: Sensors): State {
    if s.backCnt < 200 then
      if e.obstacleRear then Publish(s, STOPPED)
      else Publish(s, Velocity(-e.distance * 0.2, 0.0)).(backCnt := s.backCnt + 1)
    else Publish(s, STOPPED).(backCnt := 0, mode := 2)
  }

  /** `ChargingStation_tracking2`. */
  function FinalTracking(s: State, e: Sensors): State {
    if e.tagId == s.homeId then
      if e.charging < 2 then
        var linear := e.distance / 1.2 * 0.1;
        var angular := -e.heading / 1.25;
        if linear > 1.0 then s.(cmd := STOPPED)
        else if angular > 1.0 || angular < -1.0 then s.(cmd := STOPPED)
        else Publish(s, Velocity(linear, angular))
      else Publish(s, STOPPED).(mode := 8, noMarkerCnt := 0)
    else
      var s1 := Publish(s, STOPPED);
      if s1.noMarkerCnt >= 10 then s1.(noMarkerCnt := 0, mode := 8)
      else s1.(noMarkerCnt := s1.noMarkerCnt + 1)
  }

  /** `Depart_Station2Move`. */
  function Depart(s: State, e: Sensors): State {
    if e.poseX <= 0.85 && e.tagId != -1 then
      Publish(s, if e.obstacleRear || e.initialPose then STOPPED else Velocity(-0.05, 0.0))
    else Publish(s, STOPPED).(goals := s.goals + 1, mode := 0)
  }

  /** `DockingThread_function`. */
  function Tick(s: State, e: Sensors): State {
    if s.mode == 1 then s.(mode := 2)
    else if s.mode == 2 then
      var s1 := Tracking(s.(homeId := s.dockingId), e);
      if e.exitRobot then Exit(s1) else s1
    else if s.mode == 3 then
      var s1 := YawTracking(s, e);
      if e.exitFlag then Exit(s1) else s1
    else if s.mode == 4 then
      var s1 := FinalTracking(s, e);
      if e.exitFlag then Exit(s1) else s1
    else if s.mode == 8 || s.mode == 9 then s.(mode := 0)
    else if s.mode == 10 then Depart(s, e)
    else if s.mode == 31 then BackStep(s, e)
    else s
  }

  function RunTicks(s: State, es: seq<Sensors>): State
    decreases |es|
  {
    if es == [] then s else RunTicks(Tick(s, es[0]), es[1..])
  }

  // ---------------------------------------------------------------- every run

  /** Ticks interleave with service calls that set the mode, and maybe the station id. */
  datatype Event = TickEvent(sensors: Sensors) | Command(id: Option<int>, mode: int) | Stop

  function After(s: State, e: Event): State {
    match e
    case TickEvent(sensors) => Tick(s, sensors)
    case Command(id, mode) => s.(mode := mode, dockingId := if id.Some? then id.value else s.dockingId)
    case Stop => Exit(s)
  }

  function RunEvents(s: State, es: seq<Event>): State
    decreases |es|
  {
    if es == [] then s else RunEvents(After(s, es[0]), es[1..])
  }

  predicate CountersInRange(s: State) {
    0 <= s.noMarkerCnt <= 8001 && 0 <= s.rotationCnt <= 101 && 0 <= s.backCnt <= 200
  }

  const INITIAL: State := State(0, 0, 0, 0, 0, 0, 0, 0.0, STOPPED, [], 0)

  lemma {:induction false} CountersStayInRange(s: State, es: seq<Event>)
    requires CountersInRange(s)
    ensures CountersInRange(RunEvents(s, es))
    decreases |es|
  {
    if es != [] {
      CountersStayInRange(After(s, es[0]), es[1..]);
    }
  }

  predicate SpeedLimited(s: State) {
    s.cmd.linear <= 1.0 && forall v | v in s.published :: v.linear <= 1.0
  }

  predicate RealDistances(es: seq<Event>) {
    forall i | 0 <= i < |es| && es[i].TickEvent? :: es[i].sensors.distance >= 0.0
  }

  lemma TrackingLimited(s: State, e: Sensors)
    requires SpeedLimited(s)
    ensures SpeedLimited(Tracking(s, e))
  {
  }

  lemma FinalTrackingLimited(s: State, e: Sensors)
    requires SpeedLimited(s)
    ensures SpeedLimited(FinalTracking(s, e))
  {
  }

  lemma ReverseLimited(s: State, e: Sensors)
    requires SpeedLimited(s) && e.distance >= 0.0
    ensures SpeedLimited(YawTracking(s, e)) && SpeedLimited(BackStep(s, e)) && SpeedLimited(Depart(s, e))
  {
  }

  lemma ExitLimited(s: State)
    requires SpeedLimited(s)
    ensures SpeedLimited(Exit(s))
  {
  }

  lemma SpeedLimitedTick(s: State, e: Sensors)
    requires SpeedLimited(s) && e.distance >= 0.0
    ensures SpeedLimited(Tick(s, e))
  {
    if s.mode == 2 {
      var s1 := s.(homeId := s.dockingId);
      TrackingLimited(s1, e);
      ExitLimited(Tracking(s1, e));
    } else if s.mode == 4 {
      FinalTrackingLimited(s, e);
      ExitLimited(FinalTracking(s, e));
    } else {
      ReverseLimited(s, e);
      ExitLimited(YawTracking(s, e));
    }
  }

  lemma SpeedLimitedStep(s: State, e: Event)
    requires SpeedLimited(s) && (e.TickEvent? ==> e.sensors.distance >= 0.0)
    ensures SpeedLimited(After(s, e))
  {
    match e {
      case TickEvent(sensors) => SpeedLimitedTick(s, sensors);
      case Command(_, _) =>
      case Stop => ExitLimited(s);
    }
  }

  /** No run ever publishes a forward speed above 1.0, however far away the tag appears. */
  lemma {:induction false} ForwardSpeedLimited(s: State, es: seq<Event>)
    requires SpeedLimited(s) && RealDistances(es)
    ensures SpeedLimited(RunEvents(s, es))
    decreases |es|
  {
    if es != [] {
      SpeedLimitedStep(s, es[0]);
      ForwardSpeedLimited(After(s, es[0]), es[1..]);
    }
  }

  /** The final approach has only been entered with the station's yaw within one degree. */
  predicate ApproachAligned(s: State) {
    s.mode == 4 ==> -0.0174533 <= s.targetYaw <= 0.0174533
  }

  /** No run in which the service does not command mode 4 itself enters the final
      approach misaligned. */
  lemma {:induction false} FinalApproachAligned(s: State, es: seq<Event>)
    requires ApproachAligned(s) && forall i | 0 <= i < |es| && es[i].Command? :: es[i].mode != 4
    ensures ApproachAligned(RunEvents(s, es))
    decreases |es|
  {
    if es != [] {
      FinalApproachAligned(After(s, es[0]), es[1..]);
    }
  }

  // ---------------------------------------------------------------- without a tag

  /** No tag in view and nothing behind the robot. */
  predicate Quiet(e: Sensors) {
    e.tagId == -1 && !e.obstacleRear
  }

  predicate AllQuiet(es: seq<Sensors>) {
    forall i | 0 <= i < |es| :: Quiet(es[i])
  }

  predicate NoExit(es: seq<Sensors>) {
    forall i | 0 <= i < |es| :: !es[i].exitRobot && !es[i].exitFlag
  }

  predicate Active(mode: int) {
    mode == 1 || mode == 2 || mode == 3 || mode == 4 || mode == 8 || mode == 9 || mode == 10 || mode == 31
  }

  predicate Aligned(yaw: real) {
    -0.0174533 / 1.5 <= yaw <= 0.0174533 / 1.5
  }

  /** The tag that the mode waits for is not the id -1 that stands for no tag. The final
      approach, and alignment when there is nothing to align, look for the home id; the
      search, and whatever leads back to it, for the docking id; departure for none. */
  predicate CanEnd(s: State) {
    if s.mode == 4 || (s.mode == 3 && Aligned(s.targetYaw)) then s.homeId != -1
    else if s.mode == 1 || s.mode == 2 || s.mode == 3 || s.mode == 31 then s.dockingId != -1
    else true
  }

  function SearchTicks(noMarker: int): int { 8001 - noMarker + 2 }

  function FinalTicks(noMarker: int): int { (if noMarker < 10 then 10 - noMarker else 0) + 2 }

  function BackTicks(back: int, noMarker: int): int { 200 - back + 1 + SearchTicks(noMarker) }

  /** The number of ticks left before the machine is back in mode 0, if no exit is asked for. */
  function Remaining(s: State): int {
    if s.mode == 1 then 1 + SearchTicks(s.noMarkerCnt)
    else if s.mode == 2 then SearchTicks(s.noMarkerCnt)
    else if s.mode == 3 then
      if Aligned(s.targetYaw) then 1 + FinalTicks(s.noMarkerCnt)
      else 101 - s.rotationCnt + 1 + BackTicks(s.backCnt, s.noMarkerCnt)
    else if s.mode == 4 then FinalTicks(s.noMarkerCnt)
    else if s.mode == 31 then BackTicks(s.backCnt, s.noMarkerCnt)
    else if s.mode == 8 || s.mode == 9 || s.mode == 10 then 1
    else 0
  }

  predicate LastIsStop(s: State) {
    s.published != [] && s.published[|s.published| - 1] == STOPPED
  }

  /** What every quiet tick keeps. */
  predicate Docks(s: State) {
    && CountersInRange(s) && CanEnd(s)
    && (Active(s.mode) || s.mode == 0)
    && (s.mode == 0 || s.mode == 8 || s.mode == 9 ==> LastIsStop(s))
  }

  predicate CountsDown(s: State, e: Sensors, t: State) {
    && Docks(t)
    && 0 <= Remaining(t) < Remaining(s)
    && (!e.exitRobot && !e.exitFlag ==> Remaining(t) == Remaining(s) - 1)
    && (Remaining(t) == 0 <==> t.mode == 0)
  }

  lemma QuietSearch(s: State, e: Sensors)
    requires Docks(s) && s.mode == 2 && Quiet(e)
    ensures CountsDown(s, e, Tick(s, e))
  {
  }

  lemma QuietAlignment(s: State, e: Sensors)
    requires Docks(s) && s.mode == 3 && Quiet(e)
    ensures CountsDown(s, e, Tick(s, e))
  {
  }

  /** One quiet tick: the remaining count falls by one, or at once to zero on an exit. */
  lemma QuietTick(s: State, e: Sensors)
    requires Docks(s) && s.mode != 0 && Quiet(e)
    ensures CountsDown(s, e, Tick(s, e))
  {
    if s.mode == 2 {
      QuietSearch(s, e);
    } else if s.mode == 3 {
      QuietAlignment(s, e);
    }
  }

  lemma {:induction false} DocksRun(s: State, es: seq<Sensors>)
    requires Docks(s) && AllQuiet(es)
    ensures var t := RunTicks(s, es);
            && Docks(t)
            && (|es| >= Remaining(s) ==> t.mode == 0)
            && (NoExit(es) && |es| < Remaining(s) ==> t.mode != 0)
            && Remaining(t) >= 0
    decreases |es|
  {
    if es != [] {
      if s.mode == 0 {
        assert Tick(s, es[0]) == s;
      } else {
        QuietTick(s, es[0]);
      }
      DocksRun(Tick(s, es[0]), es[1..]);
    }
  }

  predicate Docking(mode: int) {
    mode == 1 || mode == 2 || mode == 3 || mode == 4 || mode == 10 || mode == 31
  }

  /** From every docking mode, with the tag lost and nothing behind: the machine is back
      in mode 0 within the remaining count, exactly then if no exit is asked for, at most
      8306 ticks away, and the last command published is a stop. */
  lemma DockingEnds(s: State, es: seq<Sensors>)
    requires CountersInRange(s) && Docking(s.mode) && CanEnd(s) && AllQuiet(es)
    ensures 0 < Remaining(s) <= 8306
    ensures |es| >= Remaining(s) ==> RunTicks(s, es).mode == 0 && LastIsStop(RunTicks(s, es))
    ensures NoExit(es) ==> (RunTicks(s, es).mode == 0 <==> |es| >= Remaining(s))
  {
    DocksRun(s, es);
  }

  /** Nothing in view, nothing happens: the reading that keeps the other states going. */
  const NOTHING: Sensors := Sensors(-1, 1.0, 0.0, 0.0, 0.0, false, false, false, false, 0, false, false)

  function Endless(n: nat): seq<Sensors> {
    seq(n, i => NOTHING)
  }

  lemma StaysDocking(s: State)
    requires Docking(s.mode) && !CanEnd(s)
    ensures Docking(Tick(s, NOTHING).mode) && !CanEnd(Tick(s, NOTHING))
  {
  }

  lemma {:induction false} EndlessDocking(s: State, n: nat)
    requires Docking(s.mode) && !CanEnd(s)
    ensures Docking(RunTicks(s, Endless(n)).mode)
    decreases n
  {
    if n > 0 {
      assert Endless(n)[1..] == Endless(n - 1);
      StaysDocking(s);
      EndlessDocking(Tick(s, NOTHING), n - 1);
    }
  }

  ghost predicate AlwaysEnds(s: State) {
    forall es | AllQuiet(es) && |es| >= Remaining(s) :: RunTicks(s, es).mode == 0
  }

  /** From each of the six modes, every quiet input leads back to mode 0 within the
      remaining count if and only if the mode does not wait for the id -1. */
  lemma DockingEndsExactly(s: State)
    requires CountersInRange(s) && Docking(s.mode)
    ensures AlwaysEnds(s) <==> CanEnd(s)
  {
    if CanEnd(s) {
      forall es | AllQuiet(es) && |es| >= Remaining(s)
        ensures RunTicks(s, es).mode == 0
      {
        DockingEnds(s, es);
      }
    } else {
      var n := Remaining(s);
      EndlessDocking(s, n);
      assert AllQuiet(Endless(n)) && |Endless(n)| >= n;
    }
  }

  // ---------------------------------------------------------------- the speed of the search

  /** The station's tag is not in view and no exit is asked for. */
  predicate Lost(es: seq<Sensors>, id: int) {
    forall i | 0 <= i < |es| :: es[i].tagId != id && !es[i].exitRobot
  }

  /** Turning in place, or along an arc when there is a speed left over. */
  predicate TurnsAt(vs: seq<Velocity>, linear: real) {
    forall i | 0 <= i < |vs| :: vs[i].linear == linear && (vs[i].angular == 0.1 || vs[i].angular == -0.1)
  }

  lemma SearchTick(s: State, e: Sensors)
    requires s.mode == 2 && e.tagId != s.dockingId && !e.exitRobot && s.noMarkerCnt <= 8000
    ensures var t := Tick(s, e);
            && t.mode == 2 && t.dockingId == s.dockingId && t.noMarkerCnt == s.noMarkerCnt + 1
            && t.cmd.linear == s.cmd.linear && (t.cmd.angular == 0.1 || t.cmd.angular == -0.1)
            && t.published == s.published + [t.cmd]
  {
  }

  /** The search sets only the turn rate: until it times out, every command it publishes,
      one a tick, has the forward speed that was held when the tag was lost. */
  lemma {:induction false} SearchCoasts(s: State, es: seq<Sensors>) returns (vs: seq<Velocity>)
    requires s.mode == 2 && Lost(es, s.dockingId) && s.noMarkerCnt + |es| <= 8001
    ensures var t := RunTicks(s, es);
            t.mode == 2 && t.cmd.linear == s.cmd.linear && t.noMarkerCnt == s.noMarkerCnt + |es| &&
            t.published == s.published + vs
    ensures |vs| == |es| && TurnsAt(vs, s.cmd.linear)
    decreases |es|
  {
    vs := [];
    if es != [] {
      var t := Tick(s, es[0]);
      SearchTick(s, es[0]);
      var more := SearchCoasts(t, es[1..]);
      vs := [t.cmd] + more;
      assert s.published + [t.cmd] + more == s.published + vs;
    }
  }

  /** So the robot turns on the spot if and only if it had no speed when the tag was lost. */
  lemma SearchStandsStillExactly(s: State, es: seq<Sensors>)
    requires s.mode == 2 && Lost(es, s.dockingId) && s.noMarkerCnt + |es| <= 8001 && es != []
    ensures var t := RunTicks(s, es);
            && |s.published| <= |t.published|
            && ((forall i | |s.published| <= i < |t.published| :: t.published[i].linear == 0.0)
                <==> s.cmd.linear == 0.0)
  {
    var vs := SearchCoasts(s, es);
    var t := RunTicks(s, es);
    assert forall i | 0 <= i < |vs| :: t.published[|s.published| + i] == vs[i];
    assert t.published[|s.published|].linear == s.cmd.linear;
  }

  // ---------------------------------------------------------------- the node

  class DockingNode {
    var mode: int
    var noMarkerCnt: int
    var rotationCnt: int
    var backCnt: int
    var rotationMode: int
    var homeId: int
    var dockingId: int
    var targetYaw: real
    var cmd: Velocity
    ghost var published: seq<Velocity>
    ghost var goals: nat

    constructor ()
      ensures View() == INITIAL
    {
      mode, noMarkerCnt, rotationCnt, backCnt, rotationMode, homeId, dockingId := 0, 0, 0, 0, 0, 0, 0;
      targetYaw, cmd, published, goals := 0.0, STOPPED, [], 0;
    }

    ghost function View(): State
      reads this
    {
      State(mode, noMarkerCnt, rotationCnt, backCnt, rotationMode, homeId, dockingId, targetYaw, cmd, published, goals)
    }

    method PublishCmd()
      modifies this`published
      ensures published == old(published) + [cmd]
    {
      published := published + [cmd];
    }

    method DockingExit()
      modifies this
      ensures View() == Exit(old(View()))
    {
      cmd := STOPPED;
      PublishCmd();
      mode := 0;
    }

    method RotationMovement(e: Sensors) returns (rate: real)
      modifies this`rotationMode
      ensures rotationMode == RotationModeOf(old(View()), e) && rate == RotationRate(rotationMode)
    {
      rate := 0.1;
      if e.obstacleRight {
        rotationMode := 1;
      } else if e.obstacleLeft {
        rotationMode := 2;
      }
      if rotationMode == 1 {
        rate := -0.1;
      }
    }

    method ChargingStationTracking(e: Sensors)
      modifies this
      ensures View() == Tracking(old(View()), e)
    {
      if e.tagId == homeId {
        if e.distance > 0.65 {
          cmd := cmd.(linear := e.distance / 1.2 * 0.15);
          if cmd.linear > 1.0 {
            cmd := STOPPED;
            return;
          }
          cmd := cmd.(angular := -e.heading / 1.25);
          if cmd.angular > 1.0 || cmd.angular < -1.0 {
            cmd := STOPPED;
            return;
          }
          PublishCmd();
        } else {
          cmd := cmd.(linear := 0.0);
          PublishCmd();
          targetYaw := e.pitch;
          mode := if -0.0174533 <= targetYaw <= 0.0174533 then 4 else 3;
          noMarkerCnt := 0;
        }
      } else {
        var rate := RotationMovement(e);
        cmd := cmd.(angular := rate);
        PublishCmd();
        if noMarkerCnt > 8000 {
          noMarkerCnt := 0;
          cmd := STOPPED;
          PublishCmd();
          mode := 9;
        } else {
          noMarkerCnt := noMarkerCnt + 1;
        }
      }
    }

    method ChargingStationYawTracking(e: Sensors)
      modifies this
      ensures View() == YawTracking(old(View()), e)
    {
      if -0.0174533 / 1.5 <= targetYaw <= 0.0174533 / 1.5 {
        mode := 4;
        return;
      }
      if rotationCnt <= 100 {
        if e.obstacleRear {
          cmd := STOPPED;
          PublishCmd();
        } else {
          cmd := Velocity(-e.distance * 0.1, -targetYaw * 2.8);
          PublishCmd();
          rotationCnt := rotationCnt + 1;
        }
      } else {
        rotationCnt := 0;
        mode := 31;
      }
      rotationMode := if targetYaw > 0.0 then 2 else 1;
    }

    method ChargingStationBackStep(e: Sensors)
      modifies this
      ensures View() == BackStep(old(View()), e)
    {
      if backCnt < 200 {
        if e.obstacleRear {
          cmd := STOPPED;
          PublishCmd();
        } else {
          cmd := Velocity(-e.distance * 0.2, 0.0);
          PublishCmd();
          backCnt := backCnt + 1;
        }
      } else {
        cmd := STOPPED;
        PublishCmd();
        backCnt := 0;
        mode := 2;
      }
    }

    method ChargingStationTracking2(e: Sensors)
      modifies this
      ensures View() == FinalTracking(old(View()), e)
    {
      if e.tagId == homeId {
        if e.charging < 2 {
          cmd := cmd.(linear := e.distance / 1.2 * 0.1);
          if cmd.linear > 1.0 {
            cmd := STOPPED;
            return;
          }
          cmd := cmd.(angular := -e.heading / 1.25);
          if cmd.angular > 1.0 || cmd.angular < -1.0 {
            cmd := STOPPED;
            return;
          }
          PublishCmd();
        } else {
          cmd := STOPPED;
          PublishCmd();
          mode := 8;
          noMarkerCnt := 0;
        }
      } else {
        cmd := STOPPED;
        PublishCmd();
        if noMarkerCnt >= 10 {
          noMarkerCnt := 0;
          mode := 8;
        } else {
          noMarkerCnt := noMarkerCnt + 1;
        }
      }
    }

    method DepartStation2Move(e: Sensors)
      modifies this
      ensures View() == Depart(old(View()), e)
    {
      if e.poseX <= 0.85 && e.tagId != -1 {
        cmd := if e.obstacleRear || e.initialPose then STOPPED else Velocity(-0.05, 0.0);
        PublishCmd();
      } else {
        cmd := STOPPED;
        PublishCmd();
        goals := goals + 1;
        mode := 0;
      }
    }

    method DockingThread(e: Sensors)
      modifies this
      ensures View() == Tick(old(View()), e)
    {
      if mode == 1 {
        mode := 2;
      } else if mode == 2 {
        homeId := dockingId;
        ChargingStationTracking(e);
        if e.exitRobot {
          DockingExit();
        }
      } else if mode == 3 {
        ChargingStationYawTracking(e);
        if e.exitFlag {
          DockingExit();
        }
      } else if mode == 4 {
        ChargingStationTracking2(e);
        if e.exitFlag {
          DockingExit();
        }
      } else if mode == 8 || mode == 9 {
        mode := 0;
      } else if mode == 10 {
        DepartStation2Move(e);
      } else if mode == 31 {
        ChargingStationBackStep(e);
      }
    }
  }
}
