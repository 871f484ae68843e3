/**
 * The health and magic bars of src/characters/bar.rs and its older copy
 * src/control/bar.rs: a `Stat` whose value every update clamps into
 * `[0, max]`, and the keyboard-driven `adjust_stats` system.
 */
module Bar {
  import opened Common

  /** `value - rhs` clamped into `[0, max]`: what `-=` stores. */
  function Lowered(value: real, max: real, rhs: real): (r: real)
    requires 0.0 <= max
    ensures 0.0 <= r <= max
    ensures 0.0 <= value - rhs <= max ==> r == value - rhs
    ensures value - rhs < 0.0 ==> r == 0.0
    ensures 0.0 <= rhs && 0.0 <= value <= max ==> r <= value
  {
    Clamp(value - rhs, 0.0, max)
  }

  /** `value + rhs` clamped into `[0, max]`: what `+=` stores. */
  function Raised(value: real, max: real, rhs: real): (r: real)
    requires 0.0 <= max
    ensures 0.0 <= r <= max
    ensures 0.0 <= value + rhs <= max ==> r == value + rhs
    ensures max < value + rhs ==> r == max
    ensures 0.0 <= rhs && 0.0 <= value <= max ==> value <= r
  {
    Clamp(value + rhs, 0.0, max)
  }

  /** Lowering by `d` and raising by `d` again restores a value that did not hit the floor. */
  lemma LowerThenRaise(value: real, max: real, d: real)
    requires 0.0 <= max && 0.0 <= d && d <= value <= max
    ensures Raised(Lowered(value, max, d), max, d) == value
  {
  }

  /** A bar: `Stat<T>` with its current and maximum value. */
  class Stat {
    var value: real
    var max: real

    /** The bar invariant every update keeps. */
    predicate Valid()
      reads this
    {
      0.0 <= value <= max
    }

    /** `Default`: a full bar of 10. */
    constructor Default()
      ensures value == 10.0 && max == 10.0
      ensures Valid()
    {
      value := 10.0;
      max := 10.0;
    }

    /** `new_full`: a full bar of `v`, which must be positive. */
    constructor NewFull(v: real)
      requires 0.0 < v
      ensures value == v && max == v
      ensures Valid()
    {
      value := v;
      max := v;
    }

    /** `+=`: the value rises by `rhs`, clamped into `[0, max]`. */
    method AddAssign(rhs: real)
      requires 0.0 <= max
      modifies this
      ensures value == Raised(old(value), old(max), rhs) && max == old(max)
      ensures Valid()
    {
      value := Clamp(value + rhs, 0.0, max);
    }

    /** `-=`: the value falls by `rhs`, clamped into `[0, max]`. */
    method SubAssign(rhs: real)
      requires 0.0 <= max
      modifies this
      ensures value == Lowered(old(value), old(max), rhs) && max == old(max)
      ensures Valid()
    {
      value := Clamp(value - rhs, 0.0, max);
    }

    /** `get_statbar_value`: the filled fraction of the bar. */
    function StatbarValue(): (r: real)
      reads this
      requires max != 0.0
      ensures r * max == value
      ensures Valid() ==> 0.0 <= r <= 1.0
      ensures Valid() ==> (r == 1.0 <==> value == max)
    {
      value / max
    }
  }

  /* ---------------------------------------------------------------- */
  /* adjust_stats (src/control/bar.rs)                                  */
  /* ---------------------------------------------------------------- */

  /** The keys `adjust_stats` reads: A/S lower/raise health, Q/W lower/raise magic. */
  datatype Keys = Keys(a: bool, s: bool, q: bool, w: bool)

  /** A bar after an optional `-= delta` followed by an optional `+= delta`. */
  function Adjusted(value: real, max: real, lower: bool, raise: bool, delta: real): (r: real)
    requires 0.0 <= max
    ensures lower || raise || 0.0 <= value <= max ==> 0.0 <= r <= max
    ensures !lower && !raise ==> r == value
    ensures lower && !raise ==> r == Lowered(value, max, delta)
    ensures !lower && raise ==> r == Raised(value, max, delta)
    ensures lower && raise && 0.0 <= delta <= value <= max ==> r == value
  {
    if !lower && !raise then value
    else
      var v := if lower then Lowered(value, max, delta) else value;
      if raise then Raised(v, max, delta) else v
  }

  /** The bars in `bars` are distinct objects, each with a non-negative maximum. */
  predicate Distinct(bars: seq<Stat>)
    reads set i | 0 <= i < |bars| :: bars[i]
  {
    && (forall i, j :: 0 <= i < j < |bars| ==> bars[i] != bars[j])
    && (forall i :: 0 <= i < |bars| ==> 0.0 <= bars[i].max)
  }

  /** Every bar of `bars` takes an optional `-= delta` then an optional `+= delta`. */
  method AdjustAll(bars: seq<Stat>, lower: bool, raise: bool, delta: real)
    requires Distinct(bars)
    modifies set i | 0 <= i < |bars| :: bars[i]
    ensures forall i :: 0 <= i < |bars| ==>
              && bars[i].max == old(bars[i].max)
              && bars[i].value == Adjusted(old(bars[i].value), old(bars[i].max), lower, raise, delta)
  {
    for i := 0 to |bars|
      invariant forall j :: 0 <= j < i ==>
                  && bars[j].max == old(bars[j].max)
                  && bars[j].value == Adjusted(old(bars[j].value), old(bars[j].max), lower, raise, delta)
      invariant forall j :: i <= j < |bars| ==> bars[j].value == old(bars[j].value) && bars[j].max == old(bars[j].max)
    {
      if lower {
        bars[i].SubAssign(delta);
      }
      if raise {
        bars[i].AddAssign(delta);
      }
    }
  }

  /**
   * `adjust_stats`: with `delta = 5 * dt`, A lowers and S raises every
   * health bar, Q lowers and W raises every magic bar, each through the
   * clamped operators, so every valid bar stays valid.
   */
  method AdjustStats(dt: real, keys: Keys, hp: seq<Stat>, mp: seq<Stat>)
    requires Distinct(hp) && Distinct(mp)
    requires forall i, j :: 0 <= i < |hp| && 0 <= j < |mp| ==> hp[i] != mp[j]
    modifies set i | 0 <= i < |hp| :: hp[i]
    modifies set i | 0 <= i < |mp| :: mp[i]
    ensures forall i :: 0 <= i < |hp| ==>
              && hp[i].max == old(hp[i].max)
              && hp[i].value == Adjusted(old(hp[i].value), old(hp[i].max), keys.a, keys.s, 5.0 * dt)
    ensures forall i :: 0 <= i < |mp| ==>
              && mp[i].max == old(mp[i].max)
              && mp[i].value == Adjusted(old(mp[i].value), old(mp[i].max), keys.q, keys.w, 5.0 * dt)
    ensures forall i :: 0 <= i < |hp| && old(hp[i].Valid()) ==> hp[i].Valid()
    ensures forall i :: 0 <= i < |mp| && old(mp[i].Valid()) ==> mp[i].Valid()
  {
    var delta := 5.0 * dt;
    AdjustAll(hp, keys.a, keys.s, delta);
    AdjustAll(mp, keys.q, keys.w, delta);
  }
}
