/**
  The dimmer ramp (mSecExe.cpp). Levels are integers in units of 1/10000, in which every constant of
  the code is exact.
 */
module DimmerRamp {

  const FULL := 10000
  const REPEAT := 500

  datatype Sensor = Pir | Volume | TestMode | DayLight | OtherSensor

  /** `sDim`, the statics `fNow`, `fBefore` and `ulCount`, and the level last written to the lamp. */
  datatype Dim = Dim(
    forced: bool, dTime: nat, target: int, pwm: int, current: int, upStep: int, downStep: int,
    now: int, before: int, count: nat, lamp: int)

  /** The stored settings: limits in percent, delay in seconds. */
  datatype Settings = Settings(high: nat, low: nat, delay: nat)

  // ---------------------------------------------------------------- one tick

  /** The ramp: one step towards the target, stopping on it. */
  function Approach(now: int, target: int, up: int, down: int): int {
    if target >= now then if now + up >= target then target else now + up
    else if now - down <= target then target
    else now - down
  }

  /** `procDim`: the lamp is written only while the target has not been reached. */
  function ProcDim(d: Dim): Dim {
    var now := Approach(d.now, d.target, d.upStep, d.downStep);
    d.(now := now, pwm := now, current := now, lamp := if now != d.target then FULL - now else d.lamp)
  }

  function Ramp(d: Dim, up: int, down: int): Dim { ProcDim(d.(upStep := up, downStep := down, forced := false)) }

  /** An integer stored in a uint32_t. */
  function Wrap32(n: nat): nat { n % 0x1_0000_0000 }

  /** `switchDimType`. */
  function SwitchDimType(d: Dim, sensor: Sensor, s: Settings): Dim {
    if d.forced then
      if d.before == d.target then d
      else if d.count % 20 != 0 then d.(count := Wrap32(d.count + 1))
      else d.(count := Wrap32(d.count + 1), lamp := FULL - d.target, pwm := d.target, before := d.target)
    else
      match sensor
      case Pir =>
        var d' := if d.dTime > 0 then d.(dTime := d.dTime - 1) else d.(target := 100 * s.low);
        Ramp(d', 50, 3)
      case Volume => Ramp(d, 100, 100)
      case TestMode => Ramp(d, 1, 1)
      case DayLight => Ramp(d, 1, 1)
      case OtherSensor => d
  }

  /** A motion trigger, or a sensor command from another node of the group. */
  function Trigger(d: Dim, s: Settings): Dim { d.(target := 100 * s.high, dTime := s.delay * 1000) }

  /** The PIR node: its dimmer and the hold-off counter of the sensor. */
  datatype PirNode = PirNode(d: Dim, holdOff: nat)

  /** A tick, one during the noise block, when the sensor is not looked at, and a command by radio. */
  datatype Event = Tick(motion: bool) | Blocked | SensorCommand

  /** A tick triggers when motion is seen and the hold-off has run out. */
  predicate Triggers(n: PirNode, e: Event) { e == SensorCommand || (e.Tick? && e.motion && n.holdOff <= 1) }

  /** `msecTask` of an unforced PIR node, and the sensor command. */
  function Step(n: PirNode, e: Event, s: Settings): PirNode {
    match e
    case SensorCommand => n.(d := Trigger(n.d, s))
    case Blocked => n.(d := SwitchDimType(n.d, Pir, s))
    case Tick(motion) =>
      var left := if n.holdOff > 0 then n.holdOff - 1 else 0;
      if motion && left == 0 then PirNode(SwitchDimType(Trigger(n.d, s), Pir, s), REPEAT)
      else PirNode(SwitchDimType(n.d, Pir, s), left)
  }

  function Run(n: PirNode, events: seq<Event>, s: Settings): PirNode {
    if events == [] then n else Step(Run(n, events[..|events| - 1], s), events[|events| - 1], s)
  }

  // ---------------------------------------------------------------- the ramp never overshoots

  /** The new level lies between the old one and the target, and is nearer unless already there. */
  lemma ApproachBetween(now: int, target: int, up: int, down: int)
    requires up > 0 && down > 0
    ensures var next := Approach(now, target, up, down);
            && (now <= target ==> now <= next <= target)
            && (target <= now ==> target <= next <= now)
            && (now != target ==> next != now)
  {
  }

  /** Bounds the level can never leave: those of the start, the limits and the pending target. */
  predicate Within(d: Dim, lo: int, hi: int) { lo <= d.now <= hi && lo <= d.target <= hi }

  lemma {:induction false} LevelBounded(n: PirNode, events: seq<Event>, s: Settings, lo: int, hi: int)
    requires !n.d.forced && Within(n.d, lo, hi) && lo <= 100 * s.high <= hi && lo <= 100 * s.low <= hi
    ensures Within(Run(n, events, s).d, lo, hi) && !Run(n, events, s).d.forced
    decreases |events|
  {
    if events != [] {
      LevelBounded(n, events[..|events| - 1], s, lo, hi);
    }
  }

  /**
    In any run, with limits of at most 100 percent, the level stays in [0, 1] and no tick carries it
    past the target in force.
   */
  lemma NeverCrosses(n: PirNode, events: seq<Event>, e: Event, s: Settings)
    requires !n.d.forced && Within(n.d, 0, FULL) && s.high <= 100 && s.low <= 100
    ensures var a := Run(n, events, s).d;
            var b := Run(n, events + [e], s).d;
            && 0 <= b.now <= FULL
            && (a.now <= b.target ==> a.now <= b.now <= b.target)
            && (b.target <= a.now ==> b.target <= b.now <= a.now)
  {
    LevelBounded(n, events, s, 0, FULL);
    LevelBounded(n, events + [e], s, 0, FULL);
    assert (events + [e])[..|events|] == events;
  }

  // ---------------------------------------------------------------- and settles

  /** Ticks without a trigger. */
  function Quiet(d: Dim, k: nat, s: Settings): Dim {
    if k == 0 then d else SwitchDimType(Quiet(d, k - 1, s), Pir, s)
  }

  /** How many ticks the ramp needs from here. */
  function Remaining(now: int, goal: int): nat {
    if now > goal then (now - goal + 2) / 3 else (goal - now + 49) / 50
  }

  /** While the delay runs only the counter is certain; afterwards the level is that much nearer the low limit. */
  lemma {:induction false} Settling(d: Dim, k: nat, s: Settings)
    requires !d.forced && Within(d, 0, FULL) && s.low <= 100
    ensures var q := Quiet(d, k, s);
            && !q.forced && Within(q, 0, FULL)
            && q.dTime == (if k < d.dTime then d.dTime - k else 0)
            && (k > d.dTime ==> q.target == 100 * s.low)
            && (k >= d.dTime ==>
                  Remaining(q.now, 100 * s.low) <= if k - d.dTime < 3334 then 3334 - (k - d.dTime) else 0)
    decreases k
  {
    if k > 0 {
      Settling(d, k - 1, s);
      RemainingStep(Quiet(d, k - 1, s).now, 100 * s.low);
    } else {
      RemainingBound(d.now, 100 * s.low);
    }
    RemainingBound(Quiet(d, k, s).now, 100 * s.low);
  }

  lemma RemainingBound(now: int, goal: int)
    requires 0 <= now <= FULL && 0 <= goal <= FULL
    ensures Remaining(now, goal) <= 3334 && (Remaining(now, goal) == 0 <==> now == goal)
  {
  }

  lemma RemainingStep(now: int, goal: int)
    ensures var next := Approach(now, goal, 50, 3);
            Remaining(next, goal) == if Remaining(now, goal) == 0 then 0 else Remaining(now, goal) - 1
  {
  }

  /** Without a trigger the level is at the low limit after the delay and 3334 ticks, and stays there. */
  lemma Settles(d: Dim, k: nat, s: Settings)
    requires !d.forced && Within(d, 0, FULL) && s.low <= 100
    requires k >= d.dTime + 3334
    ensures Quiet(d, k, s).now == 100 * s.low && Quiet(d, k, s).target == 100 * s.low
  {
    Settling(d, k, s);
    RemainingBound(Quiet(d, k, s).now, 100 * s.low);
  }

  /** No event of the list triggers. */
  ghost predicate NoTrigger(n: PirNode, events: seq<Event>, s: Settings) {
    forall k :: 0 <= k < |events| ==> !Triggers(Run(n, events[..k], s), events[k])
  }

  lemma {:induction false} QuietRun(n: PirNode, events: seq<Event>, s: Settings)
    requires NoTrigger(n, events, s)
    ensures Run(n, events, s).d == Quiet(n.d, |events|, s)
    decreases |events|
  {
    if events != [] {
      NoTriggerBefore(n, events, s);
      QuietRun(n, events[..|events| - 1], s);
    }
  }

  lemma NoTriggerBefore(n: PirNode, events: seq<Event>, s: Settings)
    requires events != [] && NoTrigger(n, events, s)
    ensures NoTrigger(n, events[..|events| - 1], s)
    ensures !Triggers(Run(n, events[..|events| - 1], s), events[|events| - 1])
  {
    var k := |events| - 1;
    var a := events[..k];
    forall j | 0 <= j < k ensures !Triggers(Run(n, a[..j], s), a[j]) {
      assert a[..j] == events[..j];
    }
  }

  /**
    From the last trigger of any run on: if no new trigger or command arrives for the delay and 3334
    ticks, the triggering tick included, the level equals the low limit, and it does so from then on.
   */
  lemma LevelGoesLow(n: PirNode, before: seq<Event>, e: Event, after: seq<Event>, s: Settings)
    requires !n.d.forced && Within(n.d, 0, FULL) && s.high <= 100 && s.low <= 100
    requires Triggers(Run(n, before, s), e)
    requires NoTrigger(Run(n, before + [e], s), after, s)
    requires TicksSince(e, after) >= s.delay * 1000 + 3334
    ensures Run(Run(n, before + [e], s), after, s).d.now == 100 * s.low
  {
    LevelBounded(n, before, s, 0, FULL);
    RunOneMore(n, before, e, s);
    QuietSince(Run(n, before, s), e, after, s);
    Settles(Trigger(Run(n, before, s).d, s), TicksSince(e, after), s);
  }

  /** A run that has not triggered since event e is so many quiet ticks after the trigger. */
  lemma QuietSince(q: PirNode, e: Event, after: seq<Event>, s: Settings)
    requires Triggers(q, e) && NoTrigger(Step(q, e, s), after, s)
    ensures Run(Step(q, e, s), after, s).d == Quiet(Trigger(q.d, s), TicksSince(e, after), s)
  {
    QuietRun(Step(q, e, s), after, s);
    if e != SensorCommand {
      QuietShift(Trigger(q.d, s), |after|, s);
    }
  }

  /** The triggering tick included. */
  function TicksSince(e: Event, after: seq<Event>): nat { |after| + if e == SensorCommand then 0 else 1 }

  lemma RunOneMore(n: PirNode, before: seq<Event>, e: Event, s: Settings)
    ensures Run(n, before + [e], s) == Step(Run(n, before, s), e, s)
  {
    assert (before + [e])[..|before|] == before;
  }

  lemma {:induction false} QuietShift(d: Dim, k: nat, s: Settings)
    ensures Quiet(SwitchDimType(d, Pir, s), k, s) == Quiet(d, k + 1, s)
    decreases k
  {
    if k > 0 {
      QuietShift(d, k - 1, s);
    } else {
      assert Quiet(d, 1, s) == SwitchDimType(Quiet(d, 0, s), Pir, s);
    }
  }

  // ---------------------------------------------------------------- what the lamp shows

  /** A level from which one tick reaches the goal. */
  predicate OneStep(level: int, goal: int) { goal - 50 <= level <= goal + 3 }

  /** The lamp was last written within one step of the goal. */
  predicate Shows(d: Dim, goal: int) { OneStep(FULL - d.lamp, goal) }

  /**
    From this level on, the lamp is never written: `procDim` writes it on a tick that ends off its
    target, and every tick ends on its target, which is the low limit from the start or equals it.
   */
  predicate NeverWritten(level: int, s: Settings) {
    (s.high == s.low || s.delay == 0) && OneStep(level, 100 * s.low)
  }

  /** After k quiet ticks since a trigger, when some tick has ended off its target. */
  predicate Written(q: Dim) {
    if q.now == q.target then Shows(q, q.target) else q.lamp == FULL - q.now
  }

  /** One tick towards the target that stands after it. */
  lemma TickWrites(d: Dim, s: Settings)
    requires !d.forced
    ensures var q := SwitchDimType(d, Pir, s);
            && q.target == (if d.dTime > 0 then d.target else 100 * s.low)
            && (q.now == q.target <==> OneStep(d.now, q.target))
            && q.lamp == if q.now == q.target then d.lamp else FULL - q.now
  {
  }

  /** The target of the ticks after a trigger. */
  function Goal(k: nat, s: Settings): int { if k <= s.delay * 1000 then 100 * s.high else 100 * s.low }

  /** Where the lamp stands k ticks after the trigger, and what it shows. */
  predicate LampAfter(d: Dim, q: Dim, k: nat, s: Settings) {
    && !q.forced && q.dTime == (if k < s.delay * 1000 then s.delay * 1000 - k else 0) && q.target == Goal(k, s)
    && if k == 0 then q.now == d.now && q.lamp == d.lamp
       else
         || Written(q)
         || (OneStep(d.now, Goal(1, s)) && Goal(1, s) == Goal(k, s) && q.now == q.target && q.lamp == d.lamp)
  }

  lemma {:induction false} LampFollows(d: Dim, k: nat, s: Settings)
    requires !d.forced
    ensures LampAfter(d, Quiet(Trigger(d, s), k, s), k, s)
    decreases k
  {
    if k > 0 {
      LampFollows(d, k - 1, s);
      LampStep(d, Quiet(Trigger(d, s), k - 1, s), k - 1, s);
    }
  }

  lemma LampStep(d: Dim, q: Dim, k: nat, s: Settings)
    requires LampAfter(d, q, k, s)
    ensures LampAfter(d, SwitchDimType(q, Pir, s), k + 1, s)
  {
    TickWrites(q, s);
  }

  lemma {:induction false} LampKept(d: Dim, k: nat, s: Settings)
    requires !d.forced && NeverWritten(d.now, s)
    ensures var q := Quiet(Trigger(d, s), k, s);
            && !q.forced && q.lamp == d.lamp && q.dTime == (if k < s.delay * 1000 then s.delay * 1000 - k else 0)
            && q.target == Goal(k, s) && q.now == if k == 0 then d.now else 100 * s.low
    decreases k
  {
    if k > 0 {
      LampKept(d, k - 1, s);
      TickWrites(Quiet(Trigger(d, s), k - 1, s), s);
    }
  }

  /**
    Once the level has settled after the last trigger of a run, the lamp shows the low limit to within
    one step, unless the level at the trigger was such that no tick wrote it: then it is as it was.
   */
  lemma LampAtRest(n: PirNode, before: seq<Event>, e: Event, after: seq<Event>, s: Settings)
    requires !n.d.forced && Within(n.d, 0, FULL) && s.high <= 100 && s.low <= 100
    requires Triggers(Run(n, before, s), e)
    requires NoTrigger(Run(n, before + [e], s), after, s)
    requires TicksSince(e, after) >= s.delay * 1000 + 3334
    ensures LampSettled(Run(n, before, s).d, Run(Run(n, before + [e], s), after, s).d, s)
  {
    LevelBounded(n, before, s, 0, FULL);
    RunOneMore(n, before, e, s);
    QuietSince(Run(n, before, s), e, after, s);
    LampSettles(Run(n, before, s).d, TicksSince(e, after), s);
  }

  predicate LampSettled(d: Dim, r: Dim, s: Settings) {
    if NeverWritten(d.now, s) then r.lamp == d.lamp else Shows(r, 100 * s.low)
  }

  lemma LampSettles(d: Dim, k: nat, s: Settings)
    requires !d.forced && Within(d, 0, FULL) && s.high <= 100 && s.low <= 100 && k >= s.delay * 1000 + 3334
    ensures LampSettled(d, Quiet(Trigger(d, s), k, s), s)
  {
    if NeverWritten(d.now, s) {
      LampKept(d, k, s);
    } else {
      LampFollows(d, k, s);
      Settles(Trigger(d, s), k, s);
    }
  }

  /** The node at power-up: the ramp at half level, the lamp at a duty of 0.3. */
  const POWER_UP := PirNode(Dim(false, 0, 0, 0, 0, 0, 0, 5000, 0, 0, 3000), 100)

  /** With both limits at 50 percent the lamp is never written, in any run: it stays at that duty for good. */
  lemma {:induction false} LampNeverWritten(events: seq<Event>, delay: nat)
    ensures var d := Run(POWER_UP, events, Settings(50, 50, delay)).d;
            !d.forced && d.lamp == 3000 && d.now == 5000 && (d.dTime > 0 ==> d.target == 5000)
    decreases |events|
  {
    if events != [] {
      LampNeverWritten(events[..|events| - 1], delay);
    }
  }

  // ---------------------------------------------------------------- every tick, exactly

  /** Ticks of a node with one kind of sensor. */
  function Ticks(d: Dim, sensor: Sensor, k: nat, s: Settings): Dim {
    if k == 0 then d else SwitchDimType(Ticks(d, sensor, k - 1, s), sensor, s)
  }

  /** The ticks a forced node waits before it writes its level: to the next multiple of 20 of a 32-bit counter. */
  function Wait(count: nat): nat
    requires count < 0x1_0000_0000
  {
    var w := (20 - count % 20) % 20;
    if count + w < 0x1_0000_0000 then w else 0x1_0000_0000 - count
  }

  /** A forced node that has not written its target yet. */
  function Waiting(d: Dim, k: nat): Dim { d.(count := Wrap32(d.count + k)) }

  /** And once it has. */
  function Shown(d: Dim): Dim
    requires d.count < 0x1_0000_0000
  {
    d.(count := Wrap32(d.count + Wait(d.count) + 1), lamp := FULL - d.target, pwm := d.target, before := d.target)
  }

  /**
    A forced node writes a new target to the lamp within 20 ticks, whatever its sensor, and then leaves
    everything alone; the ramp does not move.
   */
  lemma {:induction false} ForcedFollows(d: Dim, sensor: Sensor, k: nat, s: Settings)
    requires d.forced && d.count < 0x1_0000_0000
    ensures Wait(d.count) < 20
    ensures Ticks(d, sensor, k, s) ==
            if d.before == d.target then d else if k <= Wait(d.count) then Waiting(d, k) else Shown(d)
    decreases k
  {
    WaitEnds(d.count);
    if k > 0 {
      ForcedFollows(d, sensor, k - 1, s);
      if d.before != d.target {
        ForcedStep(d, sensor, k - 1, s);
      }
    }
  }

  /** One tick of a forced node that has waited k ticks, or has written its level. */
  lemma ForcedStep(d: Dim, sensor: Sensor, k: nat, s: Settings)
    requires d.forced && d.count < 0x1_0000_0000 && d.before != d.target
    ensures SwitchDimType(if k <= Wait(d.count) then Waiting(d, k) else Shown(d), sensor, s) ==
            if k + 1 <= Wait(d.count) then Waiting(d, k + 1) else Shown(d)
  {
    WaitEnds(d.count);
    if k < Wait(d.count) {
      StillWaits(d.count, k);
    }
  }

  lemma WaitEnds(count: nat)
    requires count < 0x1_0000_0000
    ensures Wait(count) < 20 && Wrap32(count + Wait(count)) % 20 == 0
    ensures Wrap32(Wrap32(count + Wait(count)) + 1) == Wrap32(count + Wait(count) + 1)
    ensures Wrap32(count) == count
  {
  }

  lemma StillWaits(count: nat, k: nat)
    requires count < 0x1_0000_0000 && k < Wait(count)
    ensures Wrap32(count + k) % 20 != 0 && Wrap32(Wrap32(count + k) + 1) == Wrap32(count + k + 1)
  {
  }

  /** So a level a control request forces is on the lamp after 20 ticks at the latest, and stays there. */
  lemma ForcedLevelShown(d: Dim, sensor: Sensor, k: nat, s: Settings)
    requires d.forced && d.count < 0x1_0000_0000 && d.before != d.target && k >= 20
    ensures var q := Ticks(d, sensor, k, s);
            && q.lamp == FULL - d.target && q.pwm == d.target && q.before == d.target
            && q.target == d.target && q.now == d.now && q.forced
  {
    ForcedFollows(d, sensor, k, s);
  }

  /** The level after going up or down so far towards the target, stopping on it. */
  function Toward(now: int, target: int, up: nat, down: nat): int {
    if target >= now then if now + up >= target then target else now + up
    else if now - down <= target then target
    else now - down
  }

  lemma TowardMore(now: int, target: int, a: nat, b: nat, up: nat, down: nat)
    ensures Approach(Toward(now, target, a, b), target, up, down) == Toward(now, target, a + up, b + down)
  {
  }

  /** What a tick of the ramp does besides moving: it reports the level, and writes the lamp off the target only. */
  predicate Reports(d: Dim, q: Dim) {
    && q.pwm == q.now && q.current == q.now && !q.forced && q.before == d.before && q.count == d.count
    && q.lamp == if q.now == q.target then d.lamp else FULL - q.now
  }

  lemma TickReports(d: Dim, sensor: Sensor, s: Settings)
    requires !d.forced && sensor != OtherSensor
    ensures var q := SwitchDimType(d, sensor, s);
            && Reports(d, q)
            && q.upStep == (if sensor == Pir then 50 else Reach(sensor, 1))
            && q.downStep == (if sensor == Pir then 3 else Reach(sensor, 1))
  {
  }

  /** The volume sensor moves the level by 1 percent a tick, test mode and daylight by 0.01 percent. */
  function Reach(sensor: Sensor, k: nat): nat { if sensor == Volume then 100 * k else k }

  /** After k ticks of those sensors the level has come that much nearer the target, or is on it. */
  lemma {:induction false} RampFollows(d: Dim, sensor: Sensor, k: nat, s: Settings)
    requires !d.forced && (sensor == Volume || sensor == TestMode || sensor == DayLight)
    ensures var q := Ticks(d, sensor, k, s);
            && q.now == Toward(d.now, d.target, Reach(sensor, k), Reach(sensor, k))
            && q.target == d.target && q.dTime == d.dTime && !q.forced
    decreases k
  {
    if k > 0 {
      RampFollows(d, sensor, k - 1, s);
      TowardMore(d.now, d.target, Reach(sensor, k - 1), Reach(sensor, k - 1), Reach(sensor, 1), Reach(sensor, 1));
    }
  }

  /** So over the whole range the level is on its target after 100 ticks, or after 10000, and stays there. */
  lemma RampReaches(d: Dim, sensor: Sensor, k: nat, s: Settings)
    requires !d.forced && Within(d, 0, FULL)
    requires (sensor == Volume && k >= 100) || ((sensor == TestMode || sensor == DayLight) && k >= 10000)
    ensures Ticks(d, sensor, k, s).now == d.target
  {
    RampFollows(d, sensor, k, s);
  }

  /** An unforced node without a sensor that dims does nothing. */
  lemma {:induction false} OtherUntouched(d: Dim, k: nat, s: Settings)
    requires !d.forced
    ensures Ticks(d, OtherSensor, k, s) == d
    decreases k
  {
    if k > 0 {
      OtherUntouched(d, k - 1, s);
    }
  }

  /** The level k ticks after the sensor was last heard, to the unit: up by 0.5 percent a tick, down by 0.03. */
  function PirLevel(d: Dim, k: nat, s: Settings): int {
    if k <= d.dTime then Toward(d.now, d.target, 50 * k, 3 * k)
    else
      var high := Toward(d.now, d.target, 50 * d.dTime, 3 * d.dTime);
      Toward(high, 100 * s.low, 50 * (k - d.dTime), 3 * (k - d.dTime))
  }

  lemma {:induction false} PirFollows(d: Dim, k: nat, s: Settings)
    requires !d.forced
    ensures var q := Quiet(d, k, s);
            && q.now == PirLevel(d, k, s) && !q.forced
            && q.dTime == (if k < d.dTime then d.dTime - k else 0)
            && q.target == (if k <= d.dTime then d.target else 100 * s.low)
    decreases k
  {
    if k > 0 {
      PirFollows(d, k - 1, s);
      PirStep(d, k, s);
    }
  }

  lemma PirStep(d: Dim, k: nat, s: Settings)
    requires k > 0
    ensures Approach(PirLevel(d, k - 1, s), if k <= d.dTime then d.target else 100 * s.low, 50, 3) == PirLevel(d, k, s)
  {
    if k <= d.dTime {
      TowardMore(d.now, d.target, 50 * (k - 1), 3 * (k - 1), 50, 3);
    } else {
      var high := Toward(d.now, d.target, 50 * d.dTime, 3 * d.dTime);
      TowardMore(high, 100 * s.low, 50 * (k - 1 - d.dTime), 3 * (k - 1 - d.dTime), 50, 3);
    }
  }

  // ---------------------------------------------------------------- the hold-off

  function TickCount(events: seq<Event>): nat {
    if events == [] then 0 else TickCount(events[..|events| - 1]) + if events[|events| - 1].Tick? then 1 else 0
  }

  lemma {:induction false} HoldOffFalls(n: PirNode, events: seq<Event>, s: Settings)
    requires TickCount(events) < n.holdOff
    ensures Run(n, events, s).holdOff == n.holdOff - TickCount(events)
    decreases |events|
  {
    if events != [] {
      HoldOffFalls(n, events[..|events| - 1], s);
    }
  }

  /** After a tick that triggers, motion triggers again at the 500th tick and not before. */
  lemma TriggersApart(n: PirNode, motion: bool, events: seq<Event>, s: Settings)
    requires Triggers(n, Tick(motion)) && TickCount(events) < 500
    ensures Triggers(Run(Step(n, Tick(motion), s), events, s), Tick(true)) <==> TickCount(events) == 499
  {
    HoldOffFalls(Step(n, Tick(motion), s), events, s);
  }

  // ---------------------------------------------------------------- the task

  class MSecExe {
    var forced: bool
    var dTime: nat
    var target: int
    var pwm: int
    var current: int
    var upStep: int
    var downStep: int
    var now: int
    var before: int
    var count: nat
    var lamp: int
    var holdOff: nat
    var sensor: Sensor
    var noiseBlock: nat

    ghost function State(): Dim
      reads this
    {
      Dim(forced, dTime, target, pwm, current, upStep, downStep, now, before, count, lamp)
    }

    /** Start-up: half level on the ramp, the lamp at 0.3, hold-off 100. */
    constructor ()
      ensures PirNode(State(), holdOff) == POWER_UP && sensor == Pir && noiseBlock == 0
    {
      forced, dTime, target, pwm, current, upStep, downStep := false, 0, 0, 0, 0, 0, 0;
      now, before, count, lamp := 5000, 0, 0, 3000;
      holdOff, sensor, noiseBlock := 100, Pir, 0;
    }

    /** `procDim`. */
    method ProcDimming()
      modifies this`now, this`pwm, this`current, this`lamp
      requires upStep > 0 && downStep > 0
      ensures State() == ProcDim(old(State()))
    {
      var act := false;
      if target >= now {
        now := now + upStep;
        if now >= target { now := target; } else { act := true; }
      } else {
        now := now - downStep;
        if now <= target { now := target; } else { act := true; }
      }
      pwm := now;
      current := now;
      if act {
        lamp := FULL - pwm;
      }
    }

    /** `switchDimType`. */
    method SwitchDim(s: Settings)
      modifies this
      ensures State() == SwitchDimType(old(State()), sensor, s)
      ensures holdOff == old(holdOff) && sensor == old(sensor) && noiseBlock == old(noiseBlock)
    {
      if forced {
        if before == target { return; }
        var ticks := count;
        count := Wrap32(count + 1);
        if ticks % 20 != 0 { return; }
        lamp := FULL - target;
        pwm := target;
        before := target;
        return;
      }
      match sensor {
        case Pir =>
          if dTime > 0 { dTime := dTime - 1; } else { target := 100 * s.low; }
          upStep, downStep, forced := 50, 3, false;
          ProcDimming();
        case Volume =>
          upStep, downStep, forced := 100, 100, false;
          ProcDimming();
        case TestMode =>
          upStep, downStep, forced := 1, 1, false;
          ProcDimming();
        case DayLight =>
          upStep, downStep, forced := 1, 1, false;
          ProcDimming();
        case OtherSensor =>
      }
    }

    /** The PIR case of `switchSensorType`; motion is what `procPirSensor` returns. */
    method PirSensor(motion: bool, s: Settings)
      modifies this`holdOff, this`sensor, this`target, this`dTime
      ensures sensor == Pir
      ensures var left := if old(holdOff) > 0 then old(holdOff) - 1 else 0;
              if motion && left == 0 then State() == Trigger(old(State()), s) && holdOff == REPEAT
              else State() == old(State()) && holdOff == left
    {
      if holdOff > 0 { holdOff := holdOff - 1; }
      sensor := Pir;
      if motion {
        if holdOff == 0 {
          holdOff := REPEAT;
          target := 100 * s.high;
          dTime := s.delay * 1000;
        }
      }
    }

    /** `msecTask` of an unforced node with a PIR sensor. */
    method MsecTask(motion: bool, s: Settings)
      requires !forced && (noiseBlock > 1 ==> sensor == Pir)
      modifies this
      ensures var e := if old(noiseBlock) > 1 then Blocked else Tick(motion);
              PirNode(State(), holdOff) == Step(old(PirNode(State(), holdOff)), e, s)
      ensures sensor == Pir && noiseBlock == if old(noiseBlock) > 0 then old(noiseBlock) - 1 else 0
    {
      if noiseBlock > 0 { noiseBlock := noiseBlock - 1; }
      if noiseBlock == 0 {
        PirSensor(motion, s);
      }
      SwitchDim(s);
    }
  }
}
