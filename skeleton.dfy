/**
 * The skeleton brain of src/brains/skeleton.rs: the satisfy drive, the
 * MoveToChest / MoveToNearest and LookAround actions (all within a fixed
 * 32-unit range), the Duty scorer and the thinker. Here the nearest-target
 * search panics when there is no target, so an executing action with
 * nothing to head for aborts the whole system.
 */
module Skeleton {
  import opened Common
  import opened Geometry
  import Thinker

  /** `MAX_DISTANCE`: the range within which an actor has reached or guards a target. */
  const MaxDistance: real := 32.0
  const MovementSpeed: real := 32.0

  /**
   * `find_closest_target`: the target `min_by` picks over squared
   * distances, panicking when there is none.
   */
  function FindClosestTarget(targets: seq<Vec2>, from: Vec2): (r: Run<Vec2>)
    ensures r.Panic? <==> |targets| == 0
    ensures r.Done? ==> r.value in targets
  {
    match Thinker.FindClosestTarget(targets, from)
    case Some(t) => Done(t)
    case None => Panic
  }

  /** When it does not panic, the target found is at minimum squared distance. */
  lemma {:induction false} ClosestIsNearest(targets: seq<Vec2>, from: Vec2)
    requires |targets| > 0
    ensures FindClosestTarget(targets, from).Done?
    ensures forall t :: t in targets ==>
              LengthSquared(Sub(FindClosestTarget(targets, from).value, from)) <= LengthSquared(Sub(t, from))
  {
    Thinker.ClosestIsNearest(targets, from);
  }

  /* ---------------------------------------------------------------- */
  /* guard_system and guarding_scorer_system                            */
  /* ---------------------------------------------------------------- */

  datatype Guard = Guard(perSecond: real, satisfy: real)

  /** `guard_system`: every guard's satisfy grows by `per_second * dt`, capped at 100. */
  method GuardSystem(dt: real, guards: array<Guard>)
    modifies guards
    ensures forall i :: 0 <= i < guards.Length ==>
              guards[i] == old(guards[i]).(satisfy := Grow(old(guards[i]).satisfy, old(guards[i]).perSecond, dt))
  {
    for i := 0 to guards.Length
      invariant forall j :: 0 <= j < i ==>
                  guards[j] == old(guards[j]).(satisfy := Grow(old(guards[j]).satisfy, old(guards[j]).perSecond, dt))
      invariant forall j :: i <= j < guards.Length ==> guards[j] == old(guards[j])
    {
      guards[i] := guards[i].(satisfy := Grow(guards[i].satisfy, guards[i].perSecond, dt));
    }
  }

  /** A Duty scorer and the `Guard` of its actor, if it has one. */
  datatype DutyRow = DutyRow(guard: Option<Guard>, score: real)

  /** `guarding_scorer_system`: the score of every actor with a guard becomes `satisfy / 100`. */
  method GuardingScorerSystem(rows: array<DutyRow>)
    modifies rows
    ensures forall i :: 0 <= i < rows.Length ==>
              rows[i] == if old(rows[i]).guard.Some? then old(rows[i]).(score := DriveScore(old(rows[i]).guard.value.satisfy))
                         else old(rows[i])
  {
    for i := 0 to rows.Length
      invariant forall j :: 0 <= j < i ==>
                  rows[j] == if old(rows[j]).guard.Some? then old(rows[j]).(score := DriveScore(old(rows[j]).guard.value.satisfy))
                             else old(rows[j])
      invariant forall j :: i <= j < rows.Length ==> rows[j] == old(rows[j])
    {
      if rows[i].guard.Some? {
        rows[i] := rows[i].(score := DriveScore(rows[i].guard.value.satisfy));
      }
    }
  }

  /* ---------------------------------------------------------------- */
  /* move_to_chest_action_system and move_to_nearest_system             */
  /* ---------------------------------------------------------------- */

  /** A MoveToChest or MoveToNearest action with its speed and its actor's position and intent. */
  datatype ChaseRow = ChaseRow(state: ActionState, speed: real, mover: Thinker.Mover)

  /**
   * One tick of a chase: the thinker's approach step toward the nearest
   * target with the fixed 32-unit range and a step of `dt * speed`, except
   * that an executing action with no target panics.
   */
  function ChaseStep(row: ChaseRow, targets: seq<Vec2>, length: Vec2 -> real, dt: real): (r: Run<ChaseRow>)
    ensures r.Panic? <==> row.state == Executing && |targets| == 0
    ensures r.Done? ==> r.value.speed == row.speed && FollowsActionContract(row.state, r.value.state)
    ensures r.Done? && row.state != Executing ==> r.value.mover == row.mover
  {
    if row.state == Executing && |targets| == 0 then Panic
    else
      var s := Thinker.ApproachStep(row.state, row.mover, Thinker.FindClosestTarget(targets, row.mover.pos),
                                    MaxDistance, dt * row.speed, length);
      Done(row.(state := s.0, mover := s.1))
  }

  /**
   * An executing chase that does not panic heads for the nearest target:
   * beyond 32 units it walks `min(dt * speed, distance)` closer without
   * overshooting, within them it succeeds and idles.
   */
  lemma {:induction false} ChaseTowardNearest(row: ChaseRow, targets: seq<Vec2>, length: Vec2 -> real, dt: real)
    requires IsLength(length) && 0.0 <= dt && 0.0 <= row.speed
    requires row.state == Executing && |targets| > 0
    ensures var t := FindClosestTarget(targets, row.mover.pos).value;
            var dist := length(Sub(t, row.mover.pos));
            var r := ChaseStep(row, targets, length, dt);
            && r.Done?
            && (dist > MaxDistance ==>
                  && r.value.state == Executing && r.value.mover.act == Walk
                  && length(Sub(t, r.value.mover.pos)) == dist - Thinker.Min(dt * row.speed, dist))
            && (dist <= MaxDistance ==> r.value.state == Success && r.value.mover == Thinker.Mover(row.mover.pos, Idle))
  {
    var t := Thinker.FindClosestTarget(targets, row.mover.pos).value;
    assert Thinker.FindClosestTarget(targets, row.mover.pos) == Some(t);
    var a := Thinker.ApproachStep(Executing, row.mover, Some(t), MaxDistance, dt * row.speed, length);
    assert !(row.state == Executing && |targets| == 0);
    assert ChaseStep(row, targets, length, dt).Done?;
    var s := Thinker.ApproachStep(row.state, row.mover, Thinker.FindClosestTarget(targets, row.mover.pos), MaxDistance, dt * row.speed, length);
    assert s == a;
    assert ChaseStep(row, targets, length, dt).value == row.(state := s.0, mover := s.1);
    if length(Sub(t, row.mover.pos)) > MaxDistance {
      Thinker.ApproachNeverOvershoots(row.mover, t, MaxDistance, dt * row.speed, length);
    }
  }

  /** Every chase in `rows` takes one step, stopping at the first that panics. */
  method ChaseAll(dt: real, length: Vec2 -> real, targets: seq<Vec2>, rows: array<ChaseRow>) returns (r: Run<()>)
    modifies rows
    ensures r.Panic? <==> |targets| == 0 && exists i :: 0 <= i < rows.Length && old(rows[i]).state == Executing
    ensures r.Done? ==> forall i :: 0 <= i < rows.Length ==>
              rows[i] == ChaseStep(old(rows[i]), targets, length, dt).value
  {
    for i := 0 to rows.Length
      invariant forall j :: 0 <= j < i ==> ChaseStep(old(rows[j]), targets, length, dt) == Done(rows[j])
      invariant forall j :: i <= j < rows.Length ==> rows[j] == old(rows[j])
    {
      var s := ChaseStep(rows[i], targets, length, dt);
      if s.Panic? {
        assert old(rows[i]).state == Executing;
        return Panic;
      }
      rows[i] := s.value;
    }
    return Done(());
  }

  /** `move_to_chest_action_system`: every MoveToChest action heads for the nearest chest. */
  method MoveToChestActionSystem(dt: real, length: Vec2 -> real, chests: seq<Vec2>, rows: array<ChaseRow>)
    returns (r: Run<()>)
    modifies rows
    ensures r.Panic? <==> |chests| == 0 && exists i :: 0 <= i < rows.Length && old(rows[i]).state == Executing
    ensures r.Done? ==> forall i :: 0 <= i < rows.Length ==>
              rows[i] == ChaseStep(old(rows[i]), chests, length, dt).value
  {
    r := ChaseAll(dt, length, chests, rows);
  }

  /** `move_to_nearest_system`: every MoveToNearest action heads for the nearest target of its kind. */
  method MoveToNearestSystem(dt: real, length: Vec2 -> real, targets: seq<Vec2>, rows: array<ChaseRow>)
    returns (r: Run<()>)
    modifies rows
    ensures r.Panic? <==> |targets| == 0 && exists i :: 0 <= i < rows.Length && old(rows[i]).state == Executing
    ensures r.Done? ==> forall i :: 0 <= i < rows.Length ==>
              rows[i] == ChaseStep(old(rows[i]), targets, length, dt).value
  {
    r := ChaseAll(dt, length, targets, rows);
  }

  /* ---------------------------------------------------------------- */
  /* guard_action_system                                                */
  /* ---------------------------------------------------------------- */

  /** A LookAround action with its rate and its actor's position and guard. */
  datatype LookRow = LookRow(state: ActionState, perSecond: real, pos: Vec2, guard: Guard)

  /**
   * One tick of the skeleton's LookAround: the thinker's LookAround step
   * with the fixed 32-unit range, draining `satisfy`, against the distance
   * to the nearest chest; an executing action with no chest panics.
   */
  function LookStep(row: LookRow, chests: seq<Vec2>, length: Vec2 -> real, dt: real): (r: Run<LookRow>)
    ensures r.Panic? <==> row.state == Executing && |chests| == 0
    ensures r.Done? ==> && FollowsActionContract(row.state, r.value.state)
                        && r.value.pos == row.pos && r.value.perSecond == row.perSecond
                        && r.value.guard.perSecond == row.guard.perSecond
    ensures r.Done? && row.state != Executing ==> r.value.guard == row.guard
  {
    if row.state == Executing && |chests| == 0 then Panic
    else
      var nearest := Thinker.NearestDistance(chests, row.pos, length);
      var s := Thinker.LookAroundStep(row.state, row.guard.satisfy, nearest,
                                      Thinker.LookAround(row.perSecond, MaxDistance), dt);
      Done(row.(state := s.0, guard := row.guard.(satisfy := s.1)))
  }

  /**
   * An executing LookAround near its nearest chest drains `satisfy` and
   * succeeds, clamped to 0, once it is used up; out of range it fails and
   * leaves `satisfy` alone.
   */
  lemma GuardNearChest(row: LookRow, chests: seq<Vec2>, length: Vec2 -> real, dt: real)
    requires row.state == Executing && |chests| > 0
    ensures var dist := length(Sub(FindClosestTarget(chests, row.pos).value, row.pos));
            var r := LookStep(row, chests, length, dt);
            && r.Done?
            && (dist < MaxDistance ==>
                  && (r.value.state == Success <==> row.guard.satisfy - row.perSecond * dt <= 0.0)
                  && (r.value.state == Success ==> r.value.guard.satisfy == 0.0)
                  && (r.value.state != Success ==>
                        r.value.state == Executing && r.value.guard.satisfy == row.guard.satisfy - row.perSecond * dt))
            && (dist >= MaxDistance ==> r.value.state == Failure && r.value.guard == row.guard)
  {
    var nearest := Thinker.NearestDistance(chests, row.pos, length);
    Thinker.LookAroundDrains(row.state, row.guard.satisfy, nearest, Thinker.LookAround(row.perSecond, MaxDistance), dt);
  }

  /** `guard_action_system`: every LookAround action takes one step, stopping at the first that panics. */
  method GuardActionSystem(dt: real, length: Vec2 -> real, chests: seq<Vec2>, rows: array<LookRow>)
    returns (r: Run<()>)
    modifies rows
    ensures r.Panic? <==> |chests| == 0 && exists i :: 0 <= i < rows.Length && old(rows[i]).state == Executing
    ensures r.Done? ==> forall i :: 0 <= i < rows.Length ==> rows[i] == LookStep(old(rows[i]), chests, length, dt).value
  {
    for i := 0 to rows.Length
      invariant forall j :: 0 <= j < i ==> LookStep(old(rows[j]), chests, length, dt) == Done(rows[j])
      invariant forall j :: i <= j < rows.Length ==> rows[j] == old(rows[j])
    {
      var s := LookStep(rows[i], chests, length, dt);
      if s.Panic? {
        assert old(rows[i]).state == Executing;
        return Panic;
      }
      rows[i] := s.value;
    }
    return Done(());
  }

  /* ---------------------------------------------------------------- */
  /* get_thinker                                                        */
  /* ---------------------------------------------------------------- */

  /**
   * `get_thinker`: a FirstToScore thinker at 0.8 with the single Duty
   * choice whose steps are, in order, to a chest, look around, to a grave
   * and sleep. The range of the look and move steps is the fixed 32 units.
   */
  function GetThinker(): (r: Thinker.ThinkerSpec)
    ensures r.threshold == 0.8 && |r.choices| == 1 && r.choices[0].scorer == Thinker.DutyKind
    ensures r.choices[0].steps == [
              Thinker.MoveToChestStep(MovementSpeed), Thinker.Look(25.0, MaxDistance),
              Thinker.MoveTo(Thinker.GraveGoal, MovementSpeed, MaxDistance), Thinker.SleepStep(10.0, 15.0)]
  {
    Thinker.ThinkerSpec("GuardingThinker", 0.8, [
      Thinker.Choice(Thinker.DutyKind, "MoveAndGuard", [
        Thinker.MoveToChestStep(MovementSpeed), Thinker.Look(25.0, MaxDistance),
        Thinker.MoveTo(Thinker.GraveGoal, MovementSpeed, MaxDistance), Thinker.SleepStep(10.0, 15.0)])])
  }
}
