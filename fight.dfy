/**
 * The fight brain of src/brains/fight.rs: the attention drive that grows
 * while a living enemy is in sight, the scorer that holds its score while
 * a fight lasts, the initial Fighter, and the Fight action. The result of
 * `find_closest_target_with_health` (a macro that is not part of this
 * model) is an input of each row.
 */
module Fight {
  import opened Common
  import opened Geometry

  /** The `TargetAt` lock of an agent. */
  datatype TargetAt = TargetAt(next: Option<Vec2>, last: Option<Vec2>)

  /**
   * The shape shared by `Fighter` and `Looter`: whether the agent is
   * engaged (`is_fighting`, `is_looting`), the growth rate and the
   * attention drive.
   */
  datatype Drive = Drive(engaged: bool, perSecond: real, attention: real)

  predicate FightingKind(t: CharType) {
    t == HumanType || t == MonsterType
  }

  /** What `find_closest_target_with_health` reports: the target's health and position. */
  datatype Sighting = Sighting(health: real, pos: Vec2)

  /* ---------------------------------------------------------------- */
  /* fight_system                                                       */
  /* ---------------------------------------------------------------- */

  /**
   * The attention of one fighter at `pos` with line of sight `sight`.
   * A living enemy in sight raises it toward 100; a dead nearest enemy
   * resets it; otherwise, and without any enemy, it stays.
   */
  function FightAttention(f: Drive, pos: Vec2, sight: real, closest: Option<Sighting>,
                          length: Vec2 -> real, dt: real): (r: Drive)
    ensures r.engaged == f.engaged && r.perSecond == f.perSecond
    ensures closest.None? ==> r == f
    ensures closest.Some? && closest.value.health <= 0.0 ==> r.attention == 0.0
    ensures closest.Some? && closest.value.health > 0.0 ==>
              if length(Sub(closest.value.pos, pos)) < sight then r.attention == Grow(f.attention, f.perSecond, dt)
              else r == f
    ensures 0.0 <= f.attention <= DriveCap && 0.0 <= f.perSecond * dt ==> 0.0 <= r.attention <= DriveCap
  {
    match closest
    case None => f
    case Some(s) =>
      if s.health > 0.0 then
        if length(Sub(s.pos, pos)) < sight then f.(attention := Grow(f.attention, f.perSecond, dt)) else f
      else f.(attention := 0.0)
  }

  /** The position and line of sight of an agent of the system's kind. */
  datatype Eyes = Eyes(pos: Vec2, lineOfSight: real)

  /**
   * One entry of the `Actor` query with the actor's `Fighter` and
   * character when it has them, and the nearest living enemy.
   */
  datatype AttentionRow = AttentionRow(fighter: Option<Drive>, eyes: Option<Eyes>, closest: Option<Sighting>)

  function AttentionRowStep(row: AttentionRow, length: Vec2 -> real, dt: real): AttentionRow {
    if row.fighter.Some? && row.eyes.Some? then
      row.(fighter := Some(FightAttention(row.fighter.value, row.eyes.value.pos, row.eyes.value.lineOfSight,
                                          row.closest, length, dt)))
    else row
  }

  /** `fight_system`: only humans and monsters pay attention to their enemies. */
  method FightSystem(t: CharType, dt: real, length: Vec2 -> real, rows: array<AttentionRow>)
    modifies rows
    ensures !FightingKind(t) ==> rows[..] == old(rows[..])
    ensures FightingKind(t) ==> forall i :: 0 <= i < rows.Length ==> rows[i] == AttentionRowStep(old(rows[i]), length, dt)
  {
    if !FightingKind(t) {
      return;
    }
    for i := 0 to rows.Length
      invariant forall j :: 0 <= j < i ==> rows[j] == AttentionRowStep(old(rows[j]), length, dt)
      invariant forall j :: i <= j < rows.Length ==> rows[j] == old(rows[j])
    {
      rows[i] := AttentionRowStep(rows[i], length, dt);
    }
  }

  /* ---------------------------------------------------------------- */
  /* fight_scorer_system (shared with loot_scorer_system)               */
  /* ---------------------------------------------------------------- */

  /**
   * One scorer's step against the stored score: while engaged the score
   * stored at the first engaged tick is reported (stored now if there is
   * none); otherwise the stored score is dropped and `attention / 100`
   * is reported.
   */
  function HeldScore(last: Option<real>, d: Drive): (r: (Option<real>, real))
    ensures !d.engaged ==> r == (None, DriveScore(d.attention))
    ensures d.engaged ==> r.0 == Some(r.1)
    ensures d.engaged ==> r.1 == if last.Some? then last.value else DriveScore(d.attention)
  {
    if d.engaged then
      var s := last.GetOr(DriveScore(d.attention));
      (Some(s), s)
    else (None, DriveScore(d.attention))
  }

  /** A scorer with the drive of its actor, if the actor has one. */
  datatype ScoreRow = ScoreRow(drive: Option<Drive>, score: real)

  /**
   * The rows after one pass of a scorer that starts from the stored score
   * `last`, and the stored score after it. The stored score is a single
   * value that the pass threads through all rows in order.
   */
  function ScoreAll(last: Option<real>, rows: seq<ScoreRow>): (r: (Option<real>, seq<ScoreRow>))
    ensures |r.1| == |rows|
    ensures forall i :: 0 <= i < |rows| ==> r.1[i].drive == rows[i].drive
    ensures forall i :: 0 <= i < |rows| && rows[i].drive.None? ==> r.1[i] == rows[i]
    ensures forall i :: 0 <= i < |rows| && rows[i].drive.Some? && !rows[i].drive.value.engaged ==>
              r.1[i].score == DriveScore(rows[i].drive.value.attention)
    ensures |rows| > 0 && rows[|rows| - 1].drive.Some? && !rows[|rows| - 1].drive.value.engaged ==> r.0 == None
  {
    if |rows| == 0 then (last, [])
    else
      var prev := ScoreAll(last, rows[..|rows| - 1]);
      var row := rows[|rows| - 1];
      if row.drive.Some? then
        var h := HeldScore(prev.0, row.drive.value);
        (h.0, prev.1 + [row.(score := h.1)])
      else (prev.0, prev.1 + [row])
  }

  /**
   * Once a score is stored, a pass over engaged actors reports that score
   * for every one of them and keeps it stored: the stored value is shared
   * by all actors the scorer serves, not kept per actor.
   */
  lemma {:induction false} HeldWhileEngaged(v: real, rows: seq<ScoreRow>)
    requires forall i :: 0 <= i < |rows| ==> rows[i].drive.Some? && rows[i].drive.value.engaged
    ensures ScoreAll(Some(v), rows).0 == Some(v)
    ensures forall i :: 0 <= i < |rows| ==> ScoreAll(Some(v), rows).1[i].score == v
  {
    if |rows| > 0 {
      HeldWhileEngaged(v, rows[..|rows| - 1]);
      var prev := ScoreAll(Some(v), rows[..|rows| - 1]);
      assert ScoreAll(Some(v), rows).1 == prev.1 + [rows[|rows| - 1].(score := v)];
    }
  }

  /** A scorer system with its `Local<Option<f32>>` stored score. */
  class HeldScorer {
    var lastScore: Option<real>

    constructor()
      ensures lastScore == None
    {
      lastScore := None;
    }

    /** One pass over the scorer query. */
    method Score(rows: array<ScoreRow>)
      modifies this, rows
      ensures (lastScore, rows[..]) == ScoreAll(old(lastScore), old(rows[..]))
    {
      for i := 0 to rows.Length
        invariant (lastScore, rows[..i]) == ScoreAll(old(lastScore), old(rows[..])[..i])
        invariant rows[i..] == old(rows[..])[i..]
      {
        assert old(rows[..])[..i + 1][..i] == old(rows[..])[..i];
        assert rows[i] == old(rows[..])[i];
        if rows[i].drive.Some? {
          var h := HeldScore(lastScore, rows[i].drive.value);
          lastScore := h.0;
          rows[i] := rows[i].(score := h.1);
        }
        assert rows[..i + 1] == rows[..i] + [rows[i]];
        assert rows[i + 1..] == old(rows[..])[i + 1..];
      }
      assert rows[..] == rows[..rows.Length];
      assert old(rows[..])[..rows.Length] == old(rows[..]);
    }
  }

  /** `fight_scorer_system`: only the scorers of humans and monsters are updated. */
  method FightScorerSystem(t: CharType, scorer: HeldScorer, rows: array<ScoreRow>)
    modifies scorer, rows
    ensures FightingKind(t) ==> (scorer.lastScore, rows[..]) == ScoreAll(old(scorer.lastScore), old(rows[..]))
    ensures !FightingKind(t) ==> scorer.lastScore == old(scorer.lastScore) && rows[..] == old(rows[..])
  {
    if FightingKind(t) {
      scorer.Score(rows);
    }
  }

  /* ---------------------------------------------------------------- */
  /* get_fighter                                                        */
  /* ---------------------------------------------------------------- */

  /**
   * `get_fighter`: humans and monsters start calm (not fighting, attention
   * 70, growing by 4 per second), which scores below the 0.8 threshold of
   * their thinker; other kinds get no Fighter.
   */
  function GetFighter(t: CharType): (r: Option<Drive>)
    ensures r.Some? <==> FightingKind(t)
    ensures r.Some? ==> r.value == Drive(false, 4.0, 70.0)
    ensures r.Some? ==> DriveScore(r.value.attention) < 0.8
  {
    if FightingKind(t) then Some(Drive(false, 4.0, 70.0)) else None
  }

  /* ---------------------------------------------------------------- */
  /* fight_action_system                                                */
  /* ---------------------------------------------------------------- */

  /** The components of a fighting agent the Fight action reads and writes. */
  datatype Body = Body(target: TargetAt, pos: Vec2, act: Act, flipX: bool)

  /**
   * One tick of the Fight action. A request engages the fighter; while a
   * living enemy is nearest the agent faces it, locks onto it and
   * attacks; when the nearest enemy is dead or there is none the lock is
   * dropped and the fight succeeds with the drive reset; a cancellation
   * disengages and fails.
   */
  function FightStep(state: ActionState, f: Drive, b: Body, closest: Option<Sighting>): (r: (ActionState, Drive, Body))
    ensures FollowsActionContract(state, r.0)
    ensures r.2.pos == b.pos && r.2.target.next == b.target.next && r.1.perSecond == f.perSecond
    ensures state == Requested ==> r == (Executing, f.(engaged := true), b)
    ensures state == Executing && closest.Some? && closest.value.health > 0.0 ==>
              && r.0 == Executing && r.1 == f
              && r.2 == Body(b.target.(last := Some(closest.value.pos)), b.pos, Attack, b.pos.x > closest.value.pos.x)
    ensures state == Executing && closest.Some? && closest.value.health <= 0.0 ==>
              r == (Success, f.(engaged := false, attention := 0.0), b.(target := b.target.(last := None)))
    ensures state == Executing && closest.None? ==>
              r == (Success, f.(engaged := false, attention := 0.0),
                    b.(target := b.target.(last := None), act := IdleUnlessDie(b.act)))
    ensures state == Cancelled ==> r == (Failure, f.(engaged := false), b.(act := IdleUnlessDie(b.act)))
    ensures state !in {Requested, Executing, Cancelled} ==> r == (state, f, b)
    ensures r.0 == Success && state != Success ==> !r.1.engaged && r.1.attention == 0.0 && r.2.target.last.None?
    ensures b.act == Die && r.2.act != Die ==> r.2.act == Attack
  {
    match state
    case Requested => (Executing, f.(engaged := true), b)
    case Executing =>
      (match closest
       case Some(s) =>
         if s.health > 0.0 then
           (Executing, f, Body(b.target.(last := Some(s.pos)), b.pos, Attack, b.pos.x > s.pos.x))
         else (Success, f.(engaged := false, attention := 0.0), b.(target := b.target.(last := None)))
       case None =>
         (Success, f.(engaged := false, attention := 0.0),
          b.(target := b.target.(last := None), act := IdleUnlessDie(b.act))))
    case Cancelled => (Failure, f.(engaged := false), b.(act := IdleUnlessDie(b.act)))
    case _ => (state, f, b)
  }

  /** A Fight action with its actor's Fighter and body when it has them, and the nearest enemy. */
  datatype FightRow = FightRow(state: ActionState, fighter: Option<Drive>, body: Option<Body>, closest: Option<Sighting>)

  function FightRowStep(row: FightRow): FightRow {
    if row.fighter.Some? && row.body.Some? then
      var r := FightStep(row.state, row.fighter.value, row.body.value, row.closest);
      row.(state := r.0, fighter := Some(r.1), body := Some(r.2))
    else row
  }

  /** `fight_action_system`: every Fight action whose actor has a Fighter and a body takes one step. */
  method FightActionSystem(rows: array<FightRow>)
    modifies rows
    ensures forall i :: 0 <= i < rows.Length ==> rows[i] == FightRowStep(old(rows[i]))
  {
    for i := 0 to rows.Length
      invariant forall j :: 0 <= j < i ==> rows[j] == FightRowStep(old(rows[j]))
      invariant forall j :: i <= j < rows.Length ==> rows[j] == old(rows[j])
    {
      rows[i] := FightRowStep(rows[i]);
    }
  }
}
