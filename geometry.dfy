/**
 * Positions of agents on the continuous plane (`Position` holding a
 * `Vec2`). Floating point is replaced by reals. Vector length needs a
 * square root, which Dafny does not define: the systems receive it as a
 * function `length` characterised by `IsLength` (non-negative, and its
 * square is the squared length).
 */
module Geometry {
  import opened Common

  datatype Vec2 = Vec2(x: real, y: real)

  function Add(a: Vec2, b: Vec2): Vec2 { Vec2(a.x + b.x, a.y + b.y) }

  function Sub(a: Vec2, b: Vec2): Vec2 { Vec2(a.x - b.x, a.y - b.y) }

  function Scale(v: Vec2, k: real): Vec2 { Vec2(k * v.x, k * v.y) }

  function LengthSquared(v: Vec2): (r: real)
    ensures r >= 0.0
  {
    v.x * v.x + v.y * v.y
  }

  /** `length` behaves as the Euclidean length `Vec2::length`. */
  ghost predicate IsLength(length: Vec2 -> real) {
    forall v :: length(v) >= 0.0 && length(v) * length(v) == LengthSquared(v)
  }

  lemma ScaleLengthSquared(v: Vec2, k: real)
    ensures LengthSquared(Scale(v, k)) == k * k * LengthSquared(v)
  {
    calc {
      LengthSquared(Scale(v, k));
      (k * v.x) * (k * v.x) + (k * v.y) * (k * v.y);
      k * k * (v.x * v.x) + k * k * (v.y * v.y);
      k * k * LengthSquared(v);
    }
  }

  /** Two non-negative reals with the same square are equal. */
  lemma SquareRootUnique(a: real, b: real)
    requires 0.0 <= a && 0.0 <= b && a * a == b * b
    ensures a == b
  {
    assert (a - b) * (a + b) == 0.0;
    if a + b != 0.0 {
      assert a - b == (a - b) * (a + b) / (a + b);
    }
  }

  /**
   * One movement step toward `target`: `pos += normalize(delta) *
   * min(stepSize, dist)` with `delta = target - pos` and `dist` its length.
   */
  function StepToward(pos: Vec2, target: Vec2, dist: real, stepSize: real): Vec2
    requires dist > 0.0
  {
    var delta := Sub(target, pos);
    var m := if stepSize < dist then stepSize else dist;
    Add(pos, Scale(delta, m / dist))
  }

  /** The squared distance left after one step, for a known distance `dist`. */
  lemma StepTowardSquared(pos: Vec2, target: Vec2, dist: real, stepSize: real)
    requires dist > 0.0 && stepSize >= 0.0
    requires dist * dist == LengthSquared(Sub(target, pos))
    ensures var m := if stepSize < dist then stepSize else dist;
            LengthSquared(Sub(target, StepToward(pos, target, dist, stepSize))) == (dist - m) * (dist - m)
  {
    var delta := Sub(target, pos);
    var m := if stepSize < dist then stepSize else dist;
    var k := m / dist;
    var p := StepToward(pos, target, dist, stepSize);
    assert p == Vec2(pos.x + k * delta.x, pos.y + k * delta.y);
    assert target.x - p.x == (1.0 - k) * delta.x;
    assert target.y - p.y == (1.0 - k) * delta.y;
    assert Sub(target, p) == Scale(delta, 1.0 - k);
    ScaleLengthSquared(delta, 1.0 - k);
    var q := 1.0 - k;
    assert q * dist == dist - m;
    assert q * q * (dist * dist) == (q * dist) * (q * dist);
  }

  lemma LengthOf(length: Vec2 -> real, v: Vec2)
    requires IsLength(length)
    ensures length(v) >= 0.0 && length(v) * length(v) == LengthSquared(v)
  {
  }

  lemma StepTowardFull(pos: Vec2, target: Vec2, dist: real, stepSize: real)
    requires dist > 0.0 && stepSize >= dist
    ensures StepToward(pos, target, dist, stepSize) == target
  {
    assert dist / dist == 1.0;
  }

  /**
   * A step never overshoots: after it the agent is `dist - min(stepSize,
   * dist)` away from the target, which is never negative; a step at least
   * as long as the distance lands exactly on the target.
   */
  lemma {:induction false} StepTowardRemaining(length: Vec2 -> real, pos: Vec2, target: Vec2, stepSize: real)
    requires IsLength(length)
    requires length(Sub(target, pos)) > 0.0 && stepSize >= 0.0
    ensures var dist := length(Sub(target, pos));
            var m := if stepSize < dist then stepSize else dist;
            length(Sub(target, StepToward(pos, target, dist, stepSize))) == dist - m
    ensures stepSize >= length(Sub(target, pos)) ==>
            StepToward(pos, target, length(Sub(target, pos)), stepSize) == target
  {
    var delta := Sub(target, pos);
    var dist := length(delta);
    var m := if stepSize < dist then stepSize else dist;
    var p := StepToward(pos, target, dist, stepSize);
    var rest := Sub(target, p);
    LengthOf(length, delta);
    LengthOf(length, rest);
    StepTowardSquared(pos, target, dist, stepSize);
    SquareRootUnique(length(rest), dist - m);
    if stepSize >= dist {
      StepTowardFull(pos, target, dist, stepSize);
    }
  }
}
