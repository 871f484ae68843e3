/**
 * Damage bookkeeping of src/core/damage.rs: damage events lower the health
 * of every living target of another kind and set its intent to Hurt or
 * Die; the game is over once a human dies; damage indicators count down;
 * dying characters lose their Fighter.
 */
module Damages {
  import opened Common
  import opened Geometry
  import opened Bar
  import Fight

  /** A `Damage` event; only `by` (here `attacker`) and `power` are consulted when it is applied. */
  datatype Damage = Damage(attacker: CharacterKind, position: Vec2, power: real, radius: real, direction: Vec2, duration: real)

  /** A target of `update_damage`: its kind, its health bar and its intent. */
  datatype Target = Target(kind: CharacterKind, hp: real, hpMax: real, act: Act)

  predicate TargetOk(t: Target) {
    0.0 <= t.hpMax
  }

  /**
   * One damage event applied to one target. A dying target and a target
   * of the attacker's own kind are left alone; any other loses `power`
   * health through the clamped `-=`, and is Hurt while health remains and
   * Die once it is gone.
   */
  function HitTarget(t: Target, d: Damage): (r: Target)
    requires TargetOk(t)
    ensures r.kind == t.kind && r.hpMax == t.hpMax && TargetOk(r)
    ensures t.act == Die || t.kind == d.attacker ==> r == t
    ensures t.act != Die && t.kind != d.attacker ==>
              && r.hp == Lowered(t.hp, t.hpMax, d.power)
              && (r.act == Hurt <==> r.hp > 0.0)
              && (r.act == Die <==> r.hp <= 0.0)
    ensures r.act == t.act || r.act == Hurt || r.act == Die
  {
    if t.act != Die && t.kind != d.attacker then
      var hp := Lowered(t.hp, t.hpMax, d.power);
      Target(t.kind, hp, t.hpMax, if hp > 0.0 then Hurt else Die)
    else t
  }

  /** Where the damage lands and how wide it is do not change its effect. */
  lemma DamageAreaIgnored(t: Target, d: Damage, position: Vec2, radius: real, direction: Vec2, duration: real)
    requires TargetOk(t)
    ensures HitTarget(t, d) == HitTarget(t, Damage(d.attacker, position, d.power, radius, direction, duration))
  {
  }

  /** A target after a batch of damage events, applied in order. */
  function HitAll(t: Target, events: seq<Damage>): (r: Target)
    requires TargetOk(t)
    ensures r.kind == t.kind && r.hpMax == t.hpMax && TargetOk(r)
    ensures t.act == Die ==> r == t
    ensures (forall k :: 0 <= k < |events| ==> events[k].attacker == t.kind) ==> r == t
    ensures 0.0 <= t.hp <= t.hpMax ==> 0.0 <= r.hp <= r.hpMax
    ensures 0.0 <= t.hp <= t.hpMax && (forall k :: 0 <= k < |events| ==> 0.0 <= events[k].power) ==> r.hp <= t.hp
    ensures r.act == Die && t.act != Die ==> r.hp <= 0.0
  {
    if |events| == 0 then t
    else HitTarget(HitAll(t, events[..|events| - 1]), events[|events| - 1])
  }

  /** A human among `ts` has gone from alive (in `before`) to dying. */
  ghost predicate HumanDied(before: seq<Target>, ts: seq<Target>)
    requires |before| == |ts|
  {
    exists j :: 0 <= j < |ts| && ts[j].kind == Human && before[j].act != Die && ts[j].act == Die
  }

  /** Applying one more event extends the batch by that event. */
  lemma HitAllSnoc(t: Target, events: seq<Damage>, e: nat)
    requires TargetOk(t) && e < |events|
    ensures HitAll(t, events[..e + 1]) == HitTarget(HitAll(t, events[..e]), events[e])
  {
    assert events[..e + 1][..e] == events[..e];
  }

  /**
   * Hitting target `i` makes a human newly dead exactly when it was a
   * living human that the hit kills, given that the dead stay dead.
   */
  lemma {:induction false} HumanDiedStep(orig: seq<Target>, ts: seq<Target>, i: nat, d: Damage)
    requires |orig| == |ts| && i < |ts| && TargetOk(ts[i])
    requires forall j :: 0 <= j < |ts| && orig[j].act == Die ==> ts[j].act == Die
    ensures HumanDied(orig, ts[i := HitTarget(ts[i], d)]) <==>
              HumanDied(orig, ts) || (ts[i].kind == Human && ts[i].act != Die && HitTarget(ts[i], d).act == Die)
  {
    var hit := HitTarget(ts[i], d);
    var ts' := ts[i := hit];
    if HumanDied(orig, ts) {
      var j :| 0 <= j < |ts| && ts[j].kind == Human && orig[j].act != Die && ts[j].act == Die;
      assert ts'[j] == ts[j];
    }
    if ts[i].kind == Human && ts[i].act != Die && hit.act == Die {
      assert ts'[i].kind == Human && orig[i].act != Die && ts'[i].act == Die;
    }
    if HumanDied(orig, ts') {
      var j :| 0 <= j < |ts'| && ts'[j].kind == Human && orig[j].act != Die && ts'[j].act == Die;
      if j != i {
        assert ts[j] == ts'[j];
      }
    }
  }

  /**
   * One damage event applied to every target in turn, keeping `gameOver`
   * equal to whether some human of `orig` has died by now.
   */
  method HitEach(d: Damage, targets: array<Target>, ghost orig: seq<Target>, gameOver0: bool) returns (gameOver: bool)
    requires |orig| == targets.Length
    requires forall j :: 0 <= j < targets.Length ==> TargetOk(targets[j])
    requires forall j :: 0 <= j < targets.Length && orig[j].act == Die ==> targets[j].act == Die
    requires gameOver0 <==> HumanDied(orig, targets[..])
    modifies targets
    ensures forall j :: 0 <= j < targets.Length ==> targets[j] == HitTarget(old(targets[j]), d)
    ensures gameOver <==> HumanDied(orig, targets[..])
  {
    gameOver := gameOver0;
    for i := 0 to targets.Length
      invariant forall j :: 0 <= j < i ==> targets[j] == HitTarget(old(targets[j]), d)
      invariant forall j :: i <= j < targets.Length ==> targets[j] == old(targets[j])
      invariant forall j :: 0 <= j < targets.Length && orig[j].act == Die ==> targets[j].act == Die
      invariant gameOver <==> HumanDied(orig, targets[..])
    {
      var t := targets[i];
      HumanDiedStep(orig, targets[..], i, d);
      var hit := HitTarget(t, d);
      targets[i] := hit;
      if t.act != Die && hit.act == Die && t.kind == Human {
        gameOver := true;
      }
    }
  }

  /**
   * `update_damage`: every event is applied to every target; the game is
   * set over exactly when some human target is moved to Die.
   */
  method UpdateDamage(events: seq<Damage>, targets: array<Target>) returns (gameOver: bool)
    requires forall i :: 0 <= i < targets.Length ==> TargetOk(targets[i])
    modifies targets
    ensures forall i :: 0 <= i < targets.Length ==> TargetOk(old(targets[i])) && targets[i] == HitAll(old(targets[i]), events)
    ensures gameOver <==> HumanDied(old(targets[..]), targets[..])
  {
    gameOver := false;
    for e := 0 to |events|
      invariant forall i :: 0 <= i < targets.Length ==> targets[i] == HitAll(old(targets[i]), events[..e])
      invariant gameOver <==> HumanDied(old(targets[..]), targets[..])
    {
      forall i | 0 <= i < targets.Length
        ensures HitAll(old(targets[i]), events[..e + 1]) == HitTarget(targets[i], events[e])
      {
        HitAllSnoc(old(targets[i]), events, e);
      }
      gameOver := HitEach(events[e], targets, old(targets[..]), gameOver);
    }
    assert events[..|events|] == events;
  }

  /* ---------------------------------------------------------------- */
  /* despawn_damage_indicator                                           */
  /* ---------------------------------------------------------------- */

  /** Indices of `ds` whose duration has run out, in order. */
  function Expired(ds: seq<real>): seq<nat> {
    if |ds| == 0 then []
    else
      var prev := Expired(ds[..|ds| - 1]);
      if ds[|ds| - 1] <= 0.0 then prev + [|ds| - 1] else prev
  }

  /** `Expired` lists exactly the indices whose duration is at most 0, in increasing order. */
  lemma {:induction false} ExpiredExactly(ds: seq<real>)
    ensures forall k :: 0 <= k < |Expired(ds)| ==> Expired(ds)[k] < |ds| && ds[Expired(ds)[k]] <= 0.0
    ensures forall i :: 0 <= i < |ds| && ds[i] <= 0.0 ==> i in Expired(ds)
    ensures forall k, l :: 0 <= k < l < |Expired(ds)| ==> Expired(ds)[k] < Expired(ds)[l]
  {
    if |ds| > 0 {
      var n := |ds| - 1;
      var init := ds[..n];
      var prev := Expired(init);
      var r := Expired(ds);
      ExpiredExactly(init);
      forall k | 0 <= k < |prev|
        ensures prev[k] < n && ds[prev[k]] <= 0.0
      {
        assert init[prev[k]] == ds[prev[k]];
      }
      forall i | 0 <= i < n && ds[i] <= 0.0
        ensures i in prev
      {
        assert init[i] == ds[i];
      }
      if ds[n] <= 0.0 {
        assert r == prev + [n];
        forall i | 0 <= i < |ds| && ds[i] <= 0.0
          ensures i in r
        {
          if i == n {
            assert r[|prev|] == n;
          } else {
            var k :| 0 <= k < |prev| && prev[k] == i;
            assert r[k] == i;
          }
        }
        forall k, l | 0 <= k < l < |r|
          ensures r[k] < r[l]
        {
          assert r[k] == prev[k];
        }
      } else {
        assert r == prev;
      }
    }
  }

  /**
   * `despawn_damage_indicator`: every indicator's duration falls by `dt`,
   * and the indicators whose duration is now at most 0 are despawned.
   */
  method DespawnDamageIndicator(dt: real, durations: array<real>) returns (despawned: seq<nat>)
    modifies durations
    ensures forall i :: 0 <= i < durations.Length ==> durations[i] == old(durations[i]) - dt
    ensures despawned == Expired(durations[..])
  {
    despawned := [];
    for i := 0 to durations.Length
      invariant forall j :: 0 <= j < i ==> durations[j] == old(durations[j]) - dt
      invariant forall j :: i <= j < durations.Length ==> durations[j] == old(durations[j])
      invariant despawned == Expired(durations[..i])
    {
      durations[i] := durations[i] - dt;
      assert durations[..i + 1][..i] == durations[..i];
      if durations[i] <= 0.0 {
        despawned := despawned + [i];
      }
    }
    assert durations[..durations.Length] == durations[..];
  }

  /* ---------------------------------------------------------------- */
  /* despawn_fighter_on_death_system                                    */
  /* ---------------------------------------------------------------- */

  /** A character of the system's kind: its intent and its Fighter, if any. */
  datatype DeathRow = DeathRow(act: Act, fighter: Option<Fight.Drive>)

  /** `despawn_fighter_on_death_system`: a dying character loses its Fighter; others keep theirs. */
  method DespawnFighterOnDeath(rows: array<DeathRow>)
    modifies rows
    ensures forall i :: 0 <= i < rows.Length ==>
              rows[i] == if old(rows[i]).act == Die then old(rows[i]).(fighter := None) else old(rows[i])
  {
    for i := 0 to rows.Length
      invariant forall j :: 0 <= j < i ==>
                  rows[j] == if old(rows[j]).act == Die then old(rows[j]).(fighter := None) else old(rows[j])
      invariant forall j :: i <= j < rows.Length ==> rows[j] == old(rows[j])
    {
      if rows[i].act == Die {
        rows[i] := rows[i].(fighter := None);
      }
    }
  }
}
