/**
 * The guard brain of src/brains/thinker.rs: the concern drive, the
 * LookAround and MoveToNearest actions, the Duty scorer, nearest-target
 * selection and the thinker configuration. A system's query is an array of
 * rows, each holding one action (or guard) together with the components of
 * its actor that the system reads and writes.
 */
module Thinker {
  import opened Common
  import opened Geometry

  const MaxDistance: real := 32.0
  const MovementSpeed: real := 32.0

  /* ---------------------------------------------------------------- */
  /* find_closest_target                                                */
  /* ---------------------------------------------------------------- */

  /** The squared distances from `from` to each target. */
  function Distances(targets: seq<Vec2>, from: Vec2): (d: seq<real>)
    ensures |d| == |targets|
    ensures forall i :: 0 <= i < |d| ==> d[i] == LengthSquared(Sub(targets[i], from))
  {
    seq(|targets|, i requires 0 <= i < |targets| => LengthSquared(Sub(targets[i], from)))
  }

  /**
   * The index `min_by` settles on: it keeps the running minimum unless a
   * later element is strictly smaller, so ties go to the first.
   */
  function FirstMin(d: seq<real>): (k: nat)
    requires |d| > 0
    ensures k < |d|
    ensures forall j :: 0 <= j < |d| ==> d[k] <= d[j]
    ensures forall j :: 0 <= j < k ==> d[k] < d[j]
  {
    if |d| == 1 then 0
    else
      var k := FirstMin(d[..|d| - 1]);
      if d[|d| - 1] < d[k] then |d| - 1 else k
  }

  /**
   * `find_closest_target`: the target `min_by` picks over squared
   * distances from `from`, or `None` exactly when there are no targets.
   */
  function FindClosestTarget(targets: seq<Vec2>, from: Vec2): (r: Option<Vec2>)
    ensures r.None? <==> |targets| == 0
    ensures r.Some? ==> r.value in targets
  {
    if |targets| == 0 then None
    else Some(targets[FirstMin(Distances(targets, from))])
  }

  /**
   * The target found is at minimum squared distance from `from`, and no
   * target before it in iteration order is as close.
   */
  lemma {:induction false} ClosestIsNearest(targets: seq<Vec2>, from: Vec2)
    requires |targets| > 0
    ensures var c := FindClosestTarget(targets, from).value;
            && (forall t :: t in targets ==> LengthSquared(Sub(c, from)) <= LengthSquared(Sub(t, from)))
            && (exists k :: 0 <= k < |targets| && targets[k] == c &&
                  forall j :: 0 <= j < k ==> LengthSquared(Sub(c, from)) < LengthSquared(Sub(targets[j], from)))
  {
    var d := Distances(targets, from);
    var k := FirstMin(d);
    assert FindClosestTarget(targets, from).value == targets[k];
    forall t | t in targets
      ensures LengthSquared(Sub(targets[k], from)) <= LengthSquared(Sub(t, from))
    {
      var j :| 0 <= j < |targets| && targets[j] == t;
      assert d[k] <= d[j];
    }
  }

  /* ---------------------------------------------------------------- */
  /* guard_system and guarding_scorer_system                            */
  /* ---------------------------------------------------------------- */

  datatype Guard = Guard(perSecond: real, concern: real)

  /** `guard_system`: every guard's concern grows by `per_second * dt`, capped at 100. */
  method GuardSystem(dt: real, guards: array<Guard>)
    modifies guards
    ensures forall i :: 0 <= i < guards.Length ==>
              guards[i] == old(guards[i]).(concern := Grow(old(guards[i]).concern, old(guards[i]).perSecond, dt))
  {
    for i := 0 to guards.Length
      invariant forall j :: 0 <= j < i ==>
                  guards[j] == old(guards[j]).(concern := Grow(old(guards[j]).concern, old(guards[j]).perSecond, dt))
      invariant forall j :: i <= j < guards.Length ==> guards[j] == old(guards[j])
    {
      guards[i] := guards[i].(concern := Grow(guards[i].concern, guards[i].perSecond, dt));
    }
  }

  /** A Duty scorer and the `Guard` of its actor, if it has one. */
  datatype DutyRow = DutyRow(guard: Option<Guard>, score: real)

  /** `guarding_scorer_system`: the score of every actor with a guard becomes `concern / 100`. */
  method GuardingScorerSystem(rows: array<DutyRow>)
    modifies rows
    ensures forall i :: 0 <= i < rows.Length ==>
              rows[i] == if old(rows[i]).guard.Some? then old(rows[i]).(score := DriveScore(old(rows[i]).guard.value.concern))
                         else old(rows[i])
  {
    for i := 0 to rows.Length
      invariant forall j :: 0 <= j < i ==>
                  rows[j] == if old(rows[j]).guard.Some? then old(rows[j]).(score := DriveScore(old(rows[j]).guard.value.concern))
                             else old(rows[j])
      invariant forall j :: i <= j < rows.Length ==> rows[j] == old(rows[j])
    {
      if rows[i].guard.Some? {
        rows[i] := rows[i].(score := DriveScore(rows[i].guard.value.concern));
      }
    }
  }

  /* ---------------------------------------------------------------- */
  /* LookAround: guard_action_system                                    */
  /* ---------------------------------------------------------------- */

  datatype LookAround = LookAround(perSecond: real, distance: real)

  /**
   * One tick of LookAround for an actor with `concern`, given the distance
   * to its nearest target (`None` when there is none). Near a target the
   * concern drains and the action succeeds once it reaches 0; too far
   * away it fails; without a target nothing happens.
   */
  function LookAroundStep(state: ActionState, concern: real, nearest: Option<real>, look: LookAround, dt: real)
    : (r: (ActionState, real))
    ensures FollowsActionContract(state, r.0)
    ensures state != Executing ==> r.1 == concern
    ensures nearest.None? ==> r.1 == concern && (state == Executing ==> r.0 == Executing)
    ensures r.0 == Success && state == Executing ==> r.1 == 0.0 && nearest.Some? && nearest.value < look.distance
    ensures state == Executing && nearest.Some? && nearest.value >= look.distance ==> r == (Failure, concern)
  {
    match state
    case Requested => (Executing, concern)
    case Executing =>
      if nearest.None? then (Executing, concern)
      else if nearest.value < look.distance then
        var c := concern - look.perSecond * dt;
        if c <= 0.0 then (Success, 0.0) else (Executing, c)
      else (Failure, concern)
    case Cancelled => (Failure, concern)
    case _ => (state, concern)
  }

  /**
   * In range, the concern drains by `per_second * dt` and the action
   * succeeds exactly when it is used up; a non-negative concern never
   * grows under a non-negative drain and never goes below 0.
   */
  lemma LookAroundDrains(state: ActionState, concern: real, nearest: Option<real>, look: LookAround, dt: real)
    ensures var r := LookAroundStep(state, concern, nearest, look, dt);
            && (state == Executing && nearest.Some? && nearest.value < look.distance ==>
                  && (r.0 == Success <==> concern - look.perSecond * dt <= 0.0)
                  && (r.0 != Success ==> r == (Executing, concern - look.perSecond * dt)))
            && (0.0 <= look.perSecond * dt && 0.0 <= concern ==> r.1 <= concern)
            && (0.0 <= concern ==> 0.0 <= r.1)
  {
    if state == Executing && nearest.Some? && nearest.value < look.distance {
      var c := concern - look.perSecond * dt;
      var r := LookAroundStep(state, concern, nearest, look, dt);
      assert c > 0.0 ==> r.0 == Executing && r.1 == c;
    }
  }

  /** A LookAround action with its actor's position and guard. */
  datatype LookRow = LookRow(state: ActionState, look: LookAround, pos: Vec2, guard: Guard)

  /** The distance `length` gives from `pos` to its nearest target. */
  function NearestDistance(targets: seq<Vec2>, pos: Vec2, length: Vec2 -> real): (r: Option<real>)
    ensures r.None? <==> |targets| == 0
  {
    match FindClosestTarget(targets, pos)
    case Some(t) => Some(length(Sub(t, pos)))
    case None => None
  }

  function LookRowStep(row: LookRow, targets: seq<Vec2>, length: Vec2 -> real, dt: real): LookRow {
    var r := LookAroundStep(row.state, row.guard.concern, NearestDistance(targets, row.pos, length), row.look, dt);
    row.(state := r.0, guard := row.guard.(concern := r.1))
  }

  /** `guard_action_system`: every LookAround action takes one step. */
  method GuardActionSystem(dt: real, length: Vec2 -> real, targets: seq<Vec2>, rows: array<LookRow>)
    modifies rows
    ensures forall i :: 0 <= i < rows.Length ==> rows[i] == LookRowStep(old(rows[i]), targets, length, dt)
  {
    for i := 0 to rows.Length
      invariant forall j :: 0 <= j < i ==> rows[j] == LookRowStep(old(rows[j]), targets, length, dt)
      invariant forall j :: i <= j < rows.Length ==> rows[j] == old(rows[j])
    {
      rows[i] := LookRowStep(rows[i], targets, length, dt);
    }
  }

  /* ---------------------------------------------------------------- */
  /* MoveToNearest: move_to_nearest_system                              */
  /* ---------------------------------------------------------------- */

  datatype MoveToNearest = MoveToNearest(speed: real, distance: real)

  /** The position and intent of the actor an action moves. */
  datatype Mover = Mover(pos: Vec2, act: Act)

  function Min(a: real, b: real): real {
    if a < b then a else b
  }

  /**
   * One tick of an approach action toward `target`: while farther than
   * `threshold` the actor takes one step toward it and walks; within it
   * the action succeeds and the actor idles.
   */
  function ApproachStep(state: ActionState, m: Mover, target: Option<Vec2>, threshold: real, stepSize: real,
                        length: Vec2 -> real): (r: (ActionState, Mover))
    requires 0.0 <= threshold
    ensures FollowsActionContract(state, r.0)
    ensures state != Executing || target.None? ==> r.1 == m
    ensures state == Executing && target.Some? ==>
              var dist := length(Sub(target.value, m.pos));
              if dist > threshold then r == (Executing, Mover(StepToward(m.pos, target.value, dist, stepSize), Walk))
              else r == (Success, Mover(m.pos, Idle))
  {
    match state
    case Requested => (Executing, m)
    case Executing =>
      if target.None? then (Executing, m)
      else
        var dist := length(Sub(target.value, m.pos));
        if dist > threshold then (Executing, Mover(StepToward(m.pos, target.value, dist, stepSize), Walk))
        else (Success, Mover(m.pos, Idle))
    case Cancelled => (Failure, m)
    case _ => (state, m)
  }

  /**
   * An approach step never overshoots: the actor ends `min(stepSize,
   * distance)` closer to its target, and a step at least as long as the
   * distance lands on it.
   */
  lemma {:induction false} ApproachNeverOvershoots(m: Mover, target: Vec2, threshold: real, stepSize: real,
                                                   length: Vec2 -> real)
    requires IsLength(length) && 0.0 <= threshold && 0.0 <= stepSize
    requires length(Sub(target, m.pos)) > threshold
    ensures var dist := length(Sub(target, m.pos));
            var r := ApproachStep(Executing, m, Some(target), threshold, stepSize, length);
            && r.0 == Executing && r.1.act == Walk
            && length(Sub(target, r.1.pos)) == dist - Min(stepSize, dist)
            && (stepSize >= dist ==> r.1.pos == target)
  {
    StepTowardRemaining(length, m.pos, target, stepSize);
  }

  /** A MoveToNearest action with its actor's position and intent. */
  datatype MoveRow = MoveRow(state: ActionState, moveTo: MoveToNearest, mover: Mover)

  predicate MoveRowOk(row: MoveRow) {
    0.0 <= row.moveTo.distance
  }

  function MoveRowStep(row: MoveRow, targets: seq<Vec2>, length: Vec2 -> real, dt: real): MoveRow
    requires MoveRowOk(row)
  {
    var r := ApproachStep(row.state, row.mover, FindClosestTarget(targets, row.mover.pos),
                          row.moveTo.distance, dt * row.moveTo.speed, length);
    row.(state := r.0, mover := r.1)
  }

  /**
   * `move_to_nearest_system`: nothing at all happens while there is no
   * target; otherwise every MoveToNearest action takes one step toward the
   * target nearest its actor.
   */
  method MoveToNearestSystem(dt: real, length: Vec2 -> real, targets: seq<Vec2>, rows: array<MoveRow>)
    requires forall i :: 0 <= i < rows.Length ==> MoveRowOk(rows[i])
    modifies rows
    ensures |targets| == 0 ==> rows[..] == old(rows[..])
    ensures |targets| > 0 ==> forall i :: 0 <= i < rows.Length ==>
              MoveRowOk(old(rows[i])) && rows[i] == MoveRowStep(old(rows[i]), targets, length, dt)
  {
    if |targets| == 0 {
      return;
    }
    for i := 0 to rows.Length
      invariant forall j :: 0 <= j < i ==> MoveRowOk(old(rows[j])) && rows[j] == MoveRowStep(old(rows[j]), targets, length, dt)
      invariant forall j :: i <= j < rows.Length ==> rows[j] == old(rows[j])
    {
      rows[i] := MoveRowStep(rows[i], targets, length, dt);
    }
  }

  /* ---------------------------------------------------------------- */
  /* get_thinker                                                        */
  /* ---------------------------------------------------------------- */

  /** What a MoveToNearest step heads for. */
  datatype Goal = MonsterGoal | HumanGoal | ChestGoal | ExitGoal | GraveGoal

  /** One step of a `Steps` sequence. */
  datatype StepSpec =
    | MoveTo(goal: Goal, speed: real, distance: real)
    | Look(perSecond: real, distance: real)
    | FightFor(until: real, perSecond: real)
    | MoveToChestStep(speed: real)
    | SleepStep(until: real, perSecond: real)

  datatype ScorerKind = FightScorerKind | DutyKind

  datatype Choice = Choice(scorer: ScorerKind, name: string, steps: seq<StepSpec>)

  /** A `Thinker` built with a `FirstToScore` picker and its choices in registration order. */
  datatype ThinkerSpec = ThinkerSpec(name: string, threshold: real, choices: seq<Choice>)

  /** The guard steps of a human: to a monster, look, to a chest, look, to the exit. */
  const HumanGuardSteps: seq<StepSpec> := [
    MoveTo(MonsterGoal, MovementSpeed, MaxDistance), Look(25.0, MaxDistance),
    MoveTo(ChestGoal, MovementSpeed, MaxDistance), Look(25.0, MaxDistance),
    MoveTo(ExitGoal, MovementSpeed, MaxDistance)]

  /** The guard steps of a monster: to a chest, look, to a grave. */
  const MonsterGuardSteps: seq<StepSpec> := [
    MoveTo(ChestGoal, MovementSpeed, MaxDistance), Look(25.0, MaxDistance),
    MoveTo(GraveGoal, MovementSpeed, MaxDistance)]

  /**
   * `get_thinker`: humans and monsters get a FirstToScore thinker at 0.8
   * whose fight choice, registered first, moves toward the other kind and
   * fights, ahead of the duty choice; any other type hits `todo!`.
   */
  function GetThinker(t: CharType): (r: Run<ThinkerSpec>)
    ensures r.Panic? <==> t != HumanType && t != MonsterType
    ensures r.Done? ==> && r.value.threshold == 0.8 && |r.value.choices| == 2
                        && r.value.choices[0].scorer == FightScorerKind
                        && r.value.choices[1].scorer == DutyKind
    ensures r.Done? ==>
              (r.value.choices[0].steps ==
               [MoveTo(if t == HumanType then MonsterGoal else HumanGoal, MovementSpeed, MaxDistance), FightFor(10.0, 25.0)])
    ensures r.Done? ==> r.value.choices[1].steps == if t == HumanType then HumanGuardSteps else MonsterGuardSteps
  {
    match t
    case HumanType =>
      Done(ThinkerSpec("GuardingThinker", 0.8, [
        Choice(FightScorerKind, "MoveAndFight", [MoveTo(MonsterGoal, MovementSpeed, MaxDistance), FightFor(10.0, 25.0)]),
        Choice(DutyKind, "MoveAndGuard", HumanGuardSteps)]))
    case MonsterType =>
      Done(ThinkerSpec("GuardingThinker", 0.8, [
        Choice(FightScorerKind, "MoveAndFight", [MoveTo(HumanGoal, MovementSpeed, MaxDistance), FightFor(10.0, 25.0)]),
        Choice(DutyKind, "MoveAndGuard", MonsterGuardSteps)]))
    case _ => Panic
  }
}
