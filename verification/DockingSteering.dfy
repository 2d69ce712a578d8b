/** Where the docking machine drives: what each tick of a run publishes, in numbers and signs. */
module DockingSteering {
  import opened Bytes
  import opened Docking
  import opened Incremental

  /** One event of a run: the state before and after it, and the commands it has published. */
  datatype Record = Record(before: State, event: Event, after: State, commands: seq<Velocity>)

  function RecordOf(s: State, e: Event): Record {
    var t := After(s, e);
    Record(s, e, t, if |s.published| <= |t.published| then t.published[|s.published|..] else [])
  }

  function Records(s: State, es: seq<Event>): seq<Record>
    decreases |es|
  {
    if es == [] then [] else [RecordOf(s, es[0])] + Records(After(s, es[0]), es[1..])
  }

  function Commands(rs: seq<Record>): seq<Velocity> {
    if rs == [] then [] else rs[0].commands + Commands(rs[1..])
  }

  lemma OnlyMore(s: State, e: Event)
    ensures After(s, e).published == s.published + RecordOf(s, e).commands
  {
  }

  lemma CommandsFirst(r: Record, rest: seq<Record>)
    ensures Commands([r] + rest) == r.commands + Commands(rest)
  {
    assert ([r] + rest)[1..] == rest;
  }

  /** The records account for every command of the run, in order. */
  lemma {:induction false} RecordsAreComplete(s: State, es: seq<Event>)
    ensures RunEvents(s, es).published == s.published + Commands(Records(s, es))
    decreases |es|
  {
    if es == [] {
      assert s.published + [] == s.published;
    } else {
      var r, t, rest := RecordOf(s, es[0]), After(s, es[0]), Records(After(s, es[0]), es[1..]);
      OnlyMore(s, es[0]);
      RecordsAreComplete(t, es[1..]);
      CommandsFirst(r, rest);
      AppendAssociates(s.published, r.commands, Commands(rest));
    }
  }

  /** Each record is of one event, in whatever state the run had reached. */
  lemma {:induction false} RecordsAreTicks(s: State, es: seq<Event>, r: Record)
    requires r in Records(s, es)
    ensures r == RecordOf(r.before, r.event)
    decreases |es|
  {
    if r != RecordOf(s, es[0]) {
      RecordsAreTicks(After(s, es[0]), es[1..], r);
    }
  }

  // ---------------------------------------------------------------- with the tag in view

  /** The station's tag is in view: the docking id in mode 2, the home id in mode 4. */
  predicate InView(s: State, e: Sensors) {
    (s.mode == 2 && e.tagId == s.dockingId) || (s.mode == 4 && e.tagId == s.homeId)
  }

  predicate Halts(v: Velocity) { v.linear == 0.0 && v.angular == 0.0 }

  /** Towards the tag: forward by the given part of its distance, and against its heading. */
  predicate SteersTo(v: Velocity, e: Sensors, part: real) {
    v.linear == part * e.distance && 5.0 * v.angular == -4.0 * e.heading
  }

  /** So the turn is opposite to the heading, 0.8 of it, and there is none straight ahead. */
  lemma TurnsAgainstHeading(v: Velocity, e: Sensors, part: real)
    requires SteersTo(v, e, part)
    ensures (e.heading > 0.0 ==> v.angular < 0.0) && (e.heading < 0.0 ==> v.angular > 0.0)
    ensures v.angular == -0.8 * e.heading
  {
  }

  /** The stop that an exit adds. */
  predicate ExitStops(vs: seq<Velocity>, exit: bool) {
    if exit then |vs| == 1 && Halts(vs[0]) else vs == []
  }

  /** The first of the commands, and then the stop of an exit. */
  predicate First(cs: seq<Velocity>, exit: bool) {
    cs != [] && ExitStops(cs[1..], exit)
  }

  /** The search sees its tag: farther than 0.65 it steers there, up to distance 8 and heading
      1.25, beyond which it publishes nothing; nearer it stops moving forward, keeps its turn,
      and goes on to the final approach if and only if the station is within one degree. */
  lemma ApproachTick(s: State, e: Sensors)
    requires s.mode == 2 && InView(s, e)
    ensures var r := RecordOf(s, TickEvent(e));
            && (e.distance > 0.65 ==>
                  if e.distance <= 8.0 && -1.25 <= e.heading <= 1.25
                  then First(r.commands, e.exitRobot) && SteersTo(r.commands[0], e, 0.125)
                  else ExitStops(r.commands, e.exitRobot))
            && (e.distance <= 0.65 ==>
                  && First(r.commands, e.exitRobot)
                  && r.commands[0].linear == 0.0 && r.commands[0].angular == s.cmd.angular)
            && r.after.mode == (if e.exitRobot then 0
                                else if e.distance > 0.65 then 2
                                else if -0.0174533 <= e.pitch <= 0.0174533 then 4 else 3)
  {
  }

  /** The final approach sees its tag: it steers there up to distance 12 and heading 1.25,
      publishes nothing beyond, and ends with a stop as soon as the robot is charging. */
  lemma FinalTick(s: State, e: Sensors)
    requires s.mode == 4 && InView(s, e)
    ensures var r := RecordOf(s, TickEvent(e));
            && (e.charging < 2 ==>
                  if e.distance <= 12.0 && -1.25 <= e.heading <= 1.25
                  then First(r.commands, e.exitFlag) && SteersTo(r.commands[0], e, 1.0 / 12.0)
                  else ExitStops(r.commands, e.exitFlag))
            && (e.charging >= 2 ==> First(r.commands, e.exitFlag) && Halts(r.commands[0]))
            && r.after.mode == (if e.exitFlag then 0 else if e.charging >= 2 then 8 else 4)
  {
  }

  /** A command published with the tag in view. */
  predicate Homing(r: Record, v: Velocity)
    requires r.event.TickEvent?
  {
    var e := r.event.sensors;
    || Halts(v)
    || SteersTo(v, e, if r.before.mode == 2 then 0.125 else 1.0 / 12.0)
    || (r.before.mode == 2 && e.distance <= 0.65 && v.linear == 0.0 && v.angular == r.before.cmd.angular)
  }

  lemma HomingTick(s: State, e: Sensors, j: nat)
    requires InView(s, e) && j < |RecordOf(s, TickEvent(e)).commands|
    ensures var r := RecordOf(s, TickEvent(e));
            Homing(r, r.commands[j]) && (e.distance >= 0.0 ==> r.commands[j].linear >= 0.0)
  {
    var cs := RecordOf(s, TickEvent(e)).commands;
    if s.mode == 2 {
      ApproachTick(s, e);
    } else {
      FinalTick(s, e);
    }
    assert j > 0 ==> cs[1..][j - 1] == cs[j];
  }

  /** In every run, every command published in the search or the final approach with the
      station's tag in view is a stop, or drives towards the tag: forward, and turning
      against its heading; or, on arrival, only keeps the turn there was. */
  lemma HomesIn(s: State, es: seq<Event>, r: Record, j: nat)
    requires r in Records(s, es) && r.event.TickEvent? && InView(r.before, r.event.sensors) && j < |r.commands|
    ensures Homing(r, r.commands[j])
    ensures r.event.sensors.distance >= 0.0 ==> r.commands[j].linear >= 0.0
  {
    RecordsAreTicks(s, es, r);
    HomingTick(r.before, r.event.sensors, j);
  }

  // ---------------------------------------------------------------- without the tag

  /** The search turns at 0.1: negative with an obstacle on the right, positive with one on
      the left only, and with neither the way it turned before. */
  lemma SearchTurnsAway(s: State, e: Sensors)
    requires s.mode == 2 && e.tagId != s.dockingId
    ensures var r := RecordOf(s, TickEvent(e));
            && r.commands != [] && r.commands[0].linear == s.cmd.linear
            && (e.obstacleRight ==> r.commands[0].angular == -0.1 && r.after.rotationMode == 1)
            && (!e.obstacleRight && e.obstacleLeft ==> r.commands[0].angular == 0.1 && r.after.rotationMode == 2)
            && (!e.obstacleRight && !e.obstacleLeft ==>
                  && r.after.rotationMode == s.rotationMode
                  && r.commands[0].angular == if s.rotationMode == 1 then -0.1 else 0.1)
  {
  }

  /** Alignment, when not aligned yet: for 101 ticks it backs away while turning against the
      yaw, remembers the side for the search, and halts, uncounted, before a rear obstacle. */
  lemma AlignmentTick(s: State, e: Sensors)
    requires s.mode == 3 && !(-0.0174533 <= 1.5 * s.targetYaw <= 0.0174533)
    ensures var r := RecordOf(s, TickEvent(e));
            && r.after.rotationMode == (if s.targetYaw > 0.0 then 2 else 1)
            && (if s.rotationCnt > 100 then ExitStops(r.commands, e.exitFlag) && r.after.rotationCnt == 0
                else
                  && First(r.commands, e.exitFlag)
                  && if e.obstacleRear then Halts(r.commands[0]) && r.after.rotationCnt == s.rotationCnt
                     else
                       && 10.0 * r.commands[0].linear == -e.distance
                       && 5.0 * r.commands[0].angular == -14.0 * s.targetYaw
                       && r.after.rotationCnt == s.rotationCnt + 1)
            && r.after.mode == (if e.exitFlag then 0 else if s.rotationCnt > 100 then 31 else 3)
  {
  }

  /** The reverse move goes straight back at a fifth of the distance, and halts, uncounted,
      before a rear obstacle. */
  lemma BackStepTick(s: State, e: Sensors)
    requires s.mode == 31
    ensures var r := RecordOf(s, TickEvent(e));
            && |r.commands| == 1
            && (s.backCnt >= 200 ==> Halts(r.commands[0]) && r.after.mode == 2 && r.after.backCnt == 0)
            && (s.backCnt < 200 ==>
                  && r.after.mode == 31 && r.commands[0].angular == 0.0
                  && if e.obstacleRear then r.commands[0].linear == 0.0 && r.after.backCnt == s.backCnt
                     else 5.0 * r.commands[0].linear == -e.distance && r.after.backCnt == s.backCnt + 1)
  {
  }

  /** The other modes publish nothing. */
  lemma SilentTick(s: State, e: Sensors)
    requires s.mode != 2 && s.mode != 3 && s.mode != 4 && s.mode != 10 && s.mode != 31
    ensures RecordOf(s, TickEvent(e)).commands == []
  {
  }

  /** Departure backs straight away at 0.05 while some tag is within 0.85, halting before a
      rear obstacle or for an initial pose; then it stops, sets one goal and ends. */
  lemma DepartureTick(s: State, e: Sensors)
    requires s.mode == 10
    ensures var r := RecordOf(s, TickEvent(e));
            && |r.commands| == 1
            && if e.tagId == -1 || e.poseX > 0.85
               then Halts(r.commands[0]) && r.after.goals == s.goals + 1 && r.after.mode == 0
               else
                 && r.after.goals == s.goals && r.after.mode == 10 && r.commands[0].angular == 0.0
                 && if e.obstacleRear || e.initialPose then r.commands[0].linear == 0.0
                    else r.commands[0].linear == -0.05
  {
  }

  // ---------------------------------------------------------------- reversing

  lemma ReverseInSearch(s: State, e: Sensors, j: nat)
    requires s.mode == 2 && e.distance >= 0.0 && j < |RecordOf(s, TickEvent(e)).commands|
    ensures RecordOf(s, TickEvent(e)).commands[j].linear < 0.0 <==>
      e.tagId != s.dockingId && s.cmd.linear < 0.0 && j == 0
  {
  }

  lemma ReverseElsewhere(s: State, e: Sensors, j: nat)
    requires s.mode != 2 && e.obstacleRear && e.distance >= 0.0 && j < |RecordOf(s, TickEvent(e)).commands|
    ensures RecordOf(s, TickEvent(e)).commands[j].linear >= 0.0
  {
    if s.mode == 4 {
      assert e.distance / 1.2 * 0.1 >= 0.0;
    }
  }

  lemma ReverseTick(s: State, e: Sensors, j: nat)
    requires e.obstacleRear && e.distance >= 0.0 && j < |RecordOf(s, TickEvent(e)).commands|
    ensures RecordOf(s, TickEvent(e)).commands[j].linear < 0.0 <==>
      s.mode == 2 && e.tagId != s.dockingId && s.cmd.linear < 0.0 && j == 0
  {
    if s.mode == 2 {
      ReverseInSearch(s, e, j);
    } else {
      ReverseElsewhere(s, e, j);
    }
  }

  /** In every run, a command reverses with an obstacle behind the robot if and only if it is
      the first one of a search tick that has lost its tag while a reverse speed is held. */
  lemma ReversesBlindlyExactly(s: State, es: seq<Event>, r: Record, j: nat)
    requires r in Records(s, es) && r.event.TickEvent? && j < |r.commands|
    requires r.event.sensors.obstacleRear && r.event.sensors.distance >= 0.0
    ensures r.commands[j].linear < 0.0 <==>
      && r.before.mode == 2 && r.event.sensors.tagId != r.before.dockingId
      && r.before.cmd.linear < 0.0 && j == 0
  {
    RecordsAreTicks(s, es, r);
    ReverseTick(r.before, r.event.sensors, j);
  }

  lemma MemberLater(first: Record, rest: seq<Record>, r: Record)
    requires r in rest
    ensures r in [first] + rest
  {
  }

  lemma RecordLater(s: State, es: seq<Event>, r: Record)
    requires es != [] && r in Records(After(s, es[0]), es[1..])
    ensures r in Records(s, es)
  {
    MemberLater(RecordOf(s, es[0]), Records(After(s, es[0]), es[1..]), r);
  }

  /** Such a run: the search is commanded in the middle of the reverse move. */
  lemma BlindReverse(clear: Sensors, blocked: Sensors) returns (es: seq<Event>, r: Record)
    requires clear == Sensors(-1, 1.0, 0.0, 0.0, 0.0, false, false, false, false, 0, false, false)
    requires blocked == clear.(obstacleRear := true)
    ensures r in Records(INITIAL, es) && r.event == TickEvent(blocked)
    ensures r.commands == [Velocity(-0.2, 0.1)]
  {
    es := [Command(Some(7), 31), TickEvent(clear), Command(None, 2), TickEvent(blocked)];
    var s1 := After(INITIAL, es[0]);
    var s2 := After(s1, es[1]);
    var s3 := After(s2, es[2]);
    assert s3.cmd == Velocity(-0.2, 0.0);
    r := RecordOf(s3, es[3]);
    assert Records(s3, es[3..])[0] == r;
    assert es[2..][1..] == es[3..] && es[1..][1..] == es[2..];
    RecordLater(s2, es[2..], r);
    RecordLater(s1, es[1..], r);
    RecordLater(INITIAL, es, r);
  }
}
