/**
 * The loot brain of src/brains/loot.rs: the attention drive that grows
 * while an unlooted target is in sight, the held loot score, the initial
 * Looter, and the Loot action. A `Looter` has the same three fields as a
 * `Fighter`, so it is a `Fight.Drive` whose `engaged` flag is
 * `is_looting`. The result of `find_closest_target_without_looted` (a
 * macro that is not part of this model) is an input of each row.
 */
module Loot {
  import opened Common
  import opened Geometry
  import opened Fight

  /* ---------------------------------------------------------------- */
  /* loot_system                                                        */
  /* ---------------------------------------------------------------- */

  /**
   * The attention of one looter at `pos` with line of sight `sight`:
   * it grows toward 100 while the nearest unlooted target is in sight and
   * drops to 0 once nothing is left to loot.
   */
  function LootAttention(l: Drive, pos: Vec2, sight: real, closest: Option<Vec2>,
                         length: Vec2 -> real, dt: real): (r: Drive)
    ensures r.engaged == l.engaged && r.perSecond == l.perSecond
    ensures closest.None? ==> r.attention == 0.0
    ensures closest.Some? ==>
              if length(Sub(closest.value, pos)) < sight then r.attention == Grow(l.attention, l.perSecond, dt)
              else r == l
    ensures 0.0 <= l.attention <= DriveCap && 0.0 <= l.perSecond * dt ==> 0.0 <= r.attention <= DriveCap
  {
    match closest
    case None => l.(attention := 0.0)
    case Some(p) =>
      if length(Sub(p, pos)) < sight then l.(attention := Grow(l.attention, l.perSecond, dt)) else l
  }

  /**
   * One entry of the `Actor` query with the actor's `Looter` and
   * character when it has them, and the nearest unlooted target.
   */
  datatype LootAttentionRow = LootAttentionRow(looter: Option<Drive>, eyes: Option<Eyes>, closest: Option<Vec2>)

  function LootAttentionRowStep(row: LootAttentionRow, length: Vec2 -> real, dt: real): LootAttentionRow {
    if row.looter.Some? && row.eyes.Some? then
      row.(looter := Some(LootAttention(row.looter.value, row.eyes.value.pos, row.eyes.value.lineOfSight,
                                        row.closest, length, dt)))
    else row
  }

  /** `loot_system`: only humans pay attention to loot. */
  method LootSystem(t: CharType, dt: real, length: Vec2 -> real, rows: array<LootAttentionRow>)
    modifies rows
    ensures t != HumanType ==> rows[..] == old(rows[..])
    ensures t == HumanType ==> forall i :: 0 <= i < rows.Length ==> rows[i] == LootAttentionRowStep(old(rows[i]), length, dt)
  {
    if t != HumanType {
      return;
    }
    for i := 0 to rows.Length
      invariant forall j :: 0 <= j < i ==> rows[j] == LootAttentionRowStep(old(rows[j]), length, dt)
      invariant forall j :: i <= j < rows.Length ==> rows[j] == old(rows[j])
    {
      rows[i] := LootAttentionRowStep(rows[i], length, dt);
    }
  }

  /* ---------------------------------------------------------------- */
  /* loot_scorer_system and get_looter                                  */
  /* ---------------------------------------------------------------- */

  /**
   * `loot_scorer_system`: the scorers of humans and monsters report the
   * held loot score; the query holds the scorers whose actor is not of the
   * target kind.
   */
  method LootScorerSystem(t: CharType, scorer: HeldScorer, rows: array<ScoreRow>)
    modifies scorer, rows
    ensures FightingKind(t) ==> (scorer.lastScore, rows[..]) == ScoreAll(old(scorer.lastScore), old(rows[..]))
    ensures !FightingKind(t) ==> scorer.lastScore == old(scorer.lastScore) && rows[..] == old(rows[..])
  {
    if t == HumanType || t == MonsterType {
      scorer.Score(rows);
    }
  }

  /**
   * `get_looter`: humans and monsters start not looting with attention 70
   * growing by 4 per second, below the 0.8 threshold; other kinds get no
   * Looter.
   */
  function GetLooter(t: CharType): (r: Option<Drive>)
    ensures r.Some? <==> t == HumanType || t == MonsterType
    ensures r.Some? ==> r.value == Drive(false, 4.0, 70.0)
    ensures r.Some? ==> DriveScore(r.value.attention) < 0.8
  {
    match t
    case HumanType => Some(Drive(false, 4.0, 70.0))
    case MonsterType => Some(Drive(false, 4.0, 70.0))
    case _ => None
  }

  /* ---------------------------------------------------------------- */
  /* loot_action_system                                                 */
  /* ---------------------------------------------------------------- */

  /**
   * One tick of the Loot action. While an unlooted target remains the
   * agent faces it, locks onto it and opens it, and the action goes on;
   * it succeeds only once nothing is left, dropping the lock and
   * resetting the drive; a cancellation disengages and fails.
   */
  function LootStep(state: ActionState, l: Drive, b: Body, closest: Option<Vec2>): (r: (ActionState, Drive, Body))
    ensures FollowsActionContract(state, r.0)
    ensures r.2.pos == b.pos && r.2.target.next == b.target.next && r.1.perSecond == l.perSecond
    ensures state == Requested ==> r == (Executing, l.(engaged := true), b)
    ensures state == Executing && closest.Some? ==>
              r == (Executing, l, Body(b.target.(last := closest), b.pos, Open, b.pos.x > closest.value.x))
    ensures state == Executing && closest.None? ==>
              r == (Success, l.(engaged := false, attention := 0.0),
                    b.(target := b.target.(last := None), act := IdleUnlessDie(b.act)))
    ensures state == Cancelled ==> r == (Failure, l.(engaged := false), b.(act := IdleUnlessDie(b.act)))
    ensures state !in {Requested, Executing, Cancelled} ==> r == (state, l, b)
    ensures r.0 == Success && state != Success ==> closest.None?
    ensures r.0 in {Success, Failure} && state !in {Success, Failure} ==> !r.1.engaged
  {
    match state
    case Requested => (Executing, l.(engaged := true), b)
    case Executing =>
      (match closest
       case Some(p) => (Executing, l, Body(b.target.(last := Some(p)), b.pos, Open, b.pos.x > p.x))
       case None =>
         (Success, l.(engaged := false, attention := 0.0),
          b.(target := b.target.(last := None), act := IdleUnlessDie(b.act))))
    case Cancelled => (Failure, l.(engaged := false), b.(act := IdleUnlessDie(b.act)))
    case _ => (state, l, b)
  }

  /** A Loot action with its actor's Looter and body when it has them, and the nearest unlooted target. */
  datatype LootRow = LootRow(state: ActionState, looter: Option<Drive>, body: Option<Body>, closest: Option<Vec2>)

  function LootRowStep(row: LootRow): LootRow {
    if row.looter.Some? && row.body.Some? then
      var r := LootStep(row.state, row.looter.value, row.body.value, row.closest);
      row.(state := r.0, looter := Some(r.1), body := Some(r.2))
    else row
  }

  /** `loot_action_system`: every Loot action whose actor has a Looter and a body takes one step. */
  method LootActionSystem(rows: array<LootRow>)
    modifies rows
    ensures forall i :: 0 <= i < rows.Length ==> rows[i] == LootRowStep(old(rows[i]))
  {
    for i := 0 to rows.Length
      invariant forall j :: 0 <= j < i ==> rows[j] == LootRowStep(old(rows[j]))
      invariant forall j :: i <= j < rows.Length ==> rows[j] == old(rows[j])
    {
      rows[i] := LootRowStep(rows[i]);
    }
  }
}
