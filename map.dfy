/**
 * The 8x8 walkability grid of src/core/map.rs: successor generation, the
 * Manhattan heuristic, the Bresenham line-of-sight walk, greedy waypoint
 * smoothing, `find_path` around the external A*, `generate_map` and the
 * parsing of chess-style coordinates such as "e2".
 */
module GridMap {
  import opened Common
  import opened Grid

  /* ---------------------------------------------------------------- */
  /* Successors and the heuristic                                      */
  /* ---------------------------------------------------------------- */

  /** The position of `n` in the order left, right, up, down around `c`; 4 when `n` is not a neighbour. */
  function Rank(c: Cell, n: Cell): nat {
    if n.y == c.y && n.x + 1 == c.x then 0
    else if n.y == c.y && n.x == c.x + 1 then 1
    else if n.x == c.x && n.y + 1 == c.y then 2
    else if n.x == c.x && n.y == c.y + 1 then 3
    else 4
  }

  /** Whether all four neighbours of `c` lie inside the grid. */
  predicate Interior(w: Walkables, c: Cell) {
    0 < c.y && c.y + 1 < |w| && 0 < c.x && c.x + 1 < Width(w)
  }

  /** The neighbour `n` with cost 1 when it is walkable, nothing otherwise. */
  function Keep(w: Walkables, n: Cell): (r: seq<(Cell, nat)>)
    requires InBounds(w, n)
    ensures |r| <= 1 && (|r| == 1 <==> w[n.y][n.x]) && (|r| == 1 ==> r[0] == (n, 1))
  {
    if w[n.y][n.x] then [(n, 1)] else []
  }

  /**
   * `successors`: the walkable four-neighbours of `c`, each with cost 1, in
   * the order left, right, up, down. The source computes `x - 1` and `y - 1`
   * on `usize` and indexes `walkables[y + 1]`, `walkables[y][x + 1]`, so it
   * panics unless all four neighbours lie inside the grid.
   */
  function Successors(w: Walkables, c: Cell): (r: Run<seq<(Cell, nat)>>)
    requires IsGrid(w)
    ensures r.Panic? <==> !Interior(w, c)
    ensures r.Done? ==> |r.value| <= 4 && forall k :: 0 <= k < |r.value| ==> r.value[k].1 == 1
  {
    if !Interior(w, c) then Panic
    else
      var left, right := Cell(c.x - 1, c.y), Cell(c.x + 1, c.y);
      var up, down := Cell(c.x, c.y - 1), Cell(c.x, c.y + 1);
      Done(Keep(w, left) + Keep(w, right) + Keep(w, up) + Keep(w, down))
  }

  /** The neighbours in `r` come in strictly increasing rank, each a neighbour. */
  predicate RankSorted(c: Cell, r: seq<(Cell, nat)>) {
    forall k, l :: 0 <= k < l < |r| ==> Rank(c, r[k].0) < Rank(c, r[l].0) < 4
  }

  /** Every entry of `r` has a rank in `[lo, hi)`. */
  predicate RanksIn(c: Cell, r: seq<(Cell, nat)>, lo: nat, hi: nat) {
    forall k :: 0 <= k < |r| ==> lo <= Rank(c, r[k].0) < hi
  }

  lemma SortedConcat(c: Cell, r1: seq<(Cell, nat)>, r2: seq<(Cell, nat)>, lo: nat, mid: nat, hi: nat)
    requires lo <= mid <= hi <= 4
    requires RankSorted(c, r1) && RanksIn(c, r1, lo, mid)
    requires RankSorted(c, r2) && RanksIn(c, r2, mid, hi)
    ensures RankSorted(c, r1 + r2) && RanksIn(c, r1 + r2, lo, hi)
  {
    var r := r1 + r2;
    forall k, l | 0 <= k < l < |r|
      ensures Rank(c, r[k].0) < Rank(c, r[l].0) < 4
    {
      if l < |r1| {
        assert r[k] == r1[k] && r[l] == r1[l];
      } else if k < |r1| {
        assert r[k] == r1[k] && r[l] == r2[l - |r1|];
      } else {
        assert r[k] == r2[k - |r1|] && r[l] == r2[l - |r1|];
      }
    }
    forall k | 0 <= k < |r|
      ensures lo <= Rank(c, r[k].0) < hi
    {
      if k < |r1| {
        assert r[k] == r1[k];
      } else {
        assert r[k] == r2[k - |r1|];
      }
    }
  }

  lemma KeepRank(w: Walkables, c: Cell, n: Cell, m: nat)
    requires InBounds(w, n) && Rank(c, n) == m < 4
    ensures RankSorted(c, Keep(w, n)) && RanksIn(c, Keep(w, n), m, m + 1)
  {
  }

  /**
   * On an interior cell the successors are exactly the walkable
   * four-neighbours, listed in the order left, right, up, down.
   */
  lemma SuccessorsExact(w: Walkables, c: Cell)
    requires IsGrid(w) && Interior(w, c)
    ensures forall n :: (n, 1) in Successors(w, c).value <==> Adjacent(c, n) && Walkable(w, n)
    ensures RankSorted(c, Successors(w, c).value)
  {
    var left, right := Cell(c.x - 1, c.y), Cell(c.x + 1, c.y);
    var up, down := Cell(c.x, c.y - 1), Cell(c.x, c.y + 1);
    assert |w[c.y - 1]| == |w[c.y + 1]| == |w[c.y]| == Width(w);
    var r := Successors(w, c).value;
    assert r == Keep(w, left) + Keep(w, right) + Keep(w, up) + Keep(w, down);
    KeepRank(w, c, left, 0);
    KeepRank(w, c, right, 1);
    KeepRank(w, c, up, 2);
    KeepRank(w, c, down, 3);
    SortedConcat(c, Keep(w, left), Keep(w, right), 0, 1, 2);
    SortedConcat(c, Keep(w, left) + Keep(w, right), Keep(w, up), 0, 2, 3);
    SortedConcat(c, Keep(w, left) + Keep(w, right) + Keep(w, up), Keep(w, down), 0, 3, 4);
    forall n
      ensures (n, 1) in r <==> Adjacent(c, n) && Walkable(w, n)
    {
      KeepHas(w, left, n);
      KeepHas(w, right, n);
      KeepHas(w, up, n);
      KeepHas(w, down, n);
      assert (n, 1) in r <==> (n, 1) in Keep(w, left) || (n, 1) in Keep(w, right) || (n, 1) in Keep(w, up) || (n, 1) in Keep(w, down);
      assert Adjacent(c, n) <==> n == left || n == right || n == up || n == down;
    }
  }

  lemma KeepHas(w: Walkables, n: Cell, m: Cell)
    requires InBounds(w, n)
    ensures (m, 1) in Keep(w, n) <==> m == n && Walkable(w, n)
  {
  }

  /** `distance`: the Manhattan distance, the A* heuristic. */
  function Distance(a: Cell, b: Cell): (d: nat)
    ensures d == 0 <==> a == b
    ensures d == 1 <==> Adjacent(a, b)
  {
    AbsDiff(a.x, b.x) + AbsDiff(a.y, b.y)
  }

  lemma DistanceSymmetric(a: Cell, b: Cell)
    ensures Distance(a, b) == Distance(b, a)
  {
  }

  /**
   * The heuristic never overestimates: every walk to `g` takes at least
   * `Distance(start, g)` moves, so the A* search it guides returns a
   * cheapest route.
   */
  lemma {:induction false} DistanceAdmissible(w: Walkables, p: seq<Cell>, g: Cell)
    requires IsWalk(w, p) && p[|p| - 1] == g
    ensures Distance(p[0], g) <= Moves(p)
    decreases |p|
  {
    if |p| > 1 {
      var q := p[1..];
      assert IsWalk(w, q) by {
        forall k | 0 < k < |q|
          ensures Walkable(w, q[k]) && Adjacent(q[k - 1], q[k])
        {
          assert q[k] == p[k + 1] && q[k - 1] == p[k];
        }
        assert InBounds(w, q[0]) by { assert Walkable(w, p[1]); }
      }
      DistanceAdmissible(w, q, g);
      assert Adjacent(p[0], p[1]);
    }
  }

  /* ---------------------------------------------------------------- */
  /* The Bresenham walk of `is_walkable_line`                          */
  /* ---------------------------------------------------------------- */

  /*
   * The walk from `a` to `b` is described by the number `i` of steps taken
   * along x and the number `j` taken along y. The error term of the source
   * is then `dx - dy - i * dy + j * dx`.
   */

  function Dx(a: Cell, b: Cell): nat { AbsDiff(a.x, b.x) }

  function Dy(a: Cell, b: Cell): nat { AbsDiff(a.y, b.y) }

  function Err(a: Cell, b: Cell, i: int, j: int): int {
    Dx(a, b) - Dy(a, b) - i * Dy(a, b) + j * Dx(a, b)
  }

  /** `e2 > -dy`: the walk steps along x. */
  predicate StepsX(a: Cell, b: Cell, i: int, j: int) {
    2 * Err(a, b, i, j) > -(Dy(a, b) as int)
  }

  /** `e2 < dx`: the walk steps along y. */
  predicate StepsY(a: Cell, b: Cell, i: int, j: int) {
    2 * Err(a, b, i, j) < Dx(a, b)
  }

  /** The cell reached after `i` steps along x and `j` along y, each toward `b`. */
  function LinePoint(a: Cell, b: Cell, i: nat, j: nat): (c: Cell)
    requires i <= Dx(a, b) && j <= Dy(a, b)
    ensures (c.x == b.x <==> i == Dx(a, b)) && (c.y == b.y <==> j == Dy(a, b))
    ensures (a.x <= c.x <= b.x || b.x <= c.x <= a.x) && (a.y <= c.y <= b.y || b.y <= c.y <= a.y)
  {
    Cell(if a.x < b.x then a.x + i else a.x - i, if a.y < b.y then a.y + j else a.y - j)
  }

  /**
   * The arithmetic behind a round of the walk, with the products `i * dy`
   * and `j * dx` passed in as `p` and `q`.
   */
  lemma StepArith(dx: int, dy: int, i: int, j: int, p: int, q: int)
    requires 0 <= i <= dx && 0 <= j <= dy && !(i == dx && j == dy)
    requires i == dx ==> q <= p - dx
    requires j == dy ==> p <= q - dy
    ensures 2 * (dx - dy - p + q) > -dy ==> i < dx
    ensures 2 * (dx - dy - p + q) < dx ==> j < dy
    ensures 2 * (dx - dy - p + q) > -dy || 2 * (dx - dy - p + q) < dx
  {
  }

  /** With `k` steps short of `n` on one axis, the product falls short by a whole factor. */
  lemma ShortProduct(k: nat, n: nat, f: nat)
    requires k < n
    ensures k * f <= n * f - f
  {
    assert k * f <= (n - 1) * f by {
      var d := n - 1 - k;
      assert (n - 1) * f == k * f + d * f;
    }
  }

  /**
   * Until it reaches `b`, every round of the loop steps along x or y or
   * both, and never steps past `b` on either axis.
   */
  lemma {:induction false} BresenhamStep(a: Cell, b: Cell, i: nat, j: nat)
    requires i <= Dx(a, b) && j <= Dy(a, b) && !(i == Dx(a, b) && j == Dy(a, b))
    ensures StepsX(a, b, i, j) ==> i < Dx(a, b)
    ensures StepsY(a, b, i, j) ==> j < Dy(a, b)
    ensures StepsX(a, b, i, j) || StepsY(a, b, i, j)
  {
    var dx, dy := Dx(a, b), Dy(a, b);
    if i == dx {
      ShortProduct(j, dy, dx);
      assert dx * dy == i * dy;
    }
    if j == dy {
      ShortProduct(i, dx, dy);
      assert dy * dx == j * dx;
    }
    StepArith(dx, dy, i, j, i * dy, j * dx);
  }

  /** The cells the walk visits from the state `(i, j)` on, ending with `b`. */
  function LineFrom(a: Cell, b: Cell, i: nat, j: nat): seq<Cell>
    requires i <= Dx(a, b) && j <= Dy(a, b)
    decreases Dx(a, b) - i + Dy(a, b) - j
  {
    if i == Dx(a, b) && j == Dy(a, b) then
      [LinePoint(a, b, i, j)]
    else
      BresenhamStep(a, b, i, j);
      [LinePoint(a, b, i, j)] + LineFrom(a, b, if StepsX(a, b, i, j) then i + 1 else i, if StepsY(a, b, i, j) then j + 1 else j)
  }

  /** The cells `is_walkable_line` visits on its way from `a` to `b`. */
  function LineCells(a: Cell, b: Cell): seq<Cell> {
    LineFrom(a, b, 0, 0)
  }

  /** Two cells differ by at most one along each axis and are not equal: one king move. */
  predicate KingStep(p: Cell, q: Cell) {
    p != q && AbsDiff(p.x, q.x) <= 1 && AbsDiff(p.y, q.y) <= 1
  }

  /** Before the end, the walk is the current cell followed by the walk from the next state. */
  lemma LineFromCons(a: Cell, b: Cell, i: nat, j: nat)
    requires i <= Dx(a, b) && j <= Dy(a, b) && !(i == Dx(a, b) && j == Dy(a, b))
    ensures NextI(a, b, i, j) <= Dx(a, b) && NextJ(a, b, i, j) <= Dy(a, b)
    ensures LineFrom(a, b, i, j) == [LinePoint(a, b, i, j)] + LineFrom(a, b, NextI(a, b, i, j), NextJ(a, b, i, j))
  {
    NextBounds(a, b, i, j);
  }

  /** The walk ends at `b` and stays inside the rectangle spanned by `a` and `b`. */
  lemma {:induction false} LineFromBox(a: Cell, b: Cell, i: nat, j: nat)
    requires i <= Dx(a, b) && j <= Dy(a, b)
    ensures var s := LineFrom(a, b, i, j);
      && |s| > 0 && s[0] == LinePoint(a, b, i, j) && s[|s| - 1] == b
      && (forall k :: 0 <= k < |s| ==> (a.x <= s[k].x <= b.x || b.x <= s[k].x <= a.x) && (a.y <= s[k].y <= b.y || b.y <= s[k].y <= a.y))
    decreases Dx(a, b) - i + Dy(a, b) - j
  {
    if !(i == Dx(a, b) && j == Dy(a, b)) {
      NextBounds(a, b, i, j);
      LineFromCons(a, b, i, j);
      LineFromBox(a, b, NextI(a, b, i, j), NextJ(a, b, i, j));
      var s := LineFrom(a, b, i, j);
      var t := LineFrom(a, b, NextI(a, b, i, j), NextJ(a, b, i, j));
      forall k | 0 < k < |s|
        ensures s[k] == t[k - 1]
      {
      }
    }
  }

  /** Each move of the walk is one king step. */
  lemma {:induction false} LineFromKing(a: Cell, b: Cell, i: nat, j: nat)
    requires i <= Dx(a, b) && j <= Dy(a, b)
    ensures var s := LineFrom(a, b, i, j);
      forall k :: 0 < k < |s| ==> KingStep(s[k - 1], s[k])
    decreases Dx(a, b) - i + Dy(a, b) - j
  {
    if !(i == Dx(a, b) && j == Dy(a, b)) {
      var i2, j2 := NextI(a, b, i, j), NextJ(a, b, i, j);
      NextBounds(a, b, i, j);
      LineFromCons(a, b, i, j);
      LineFromKing(a, b, i2, j2);
      LineFromHead(a, b, i2, j2);
      var s := LineFrom(a, b, i, j);
      var t := LineFrom(a, b, i2, j2);
      assert KingStep(s[0], s[1]) by {
        assert s[1] == t[0] == LinePoint(a, b, i2, j2);
      }
      forall k | 1 < k < |s|
        ensures KingStep(s[k - 1], s[k])
      {
        assert s[k - 1] == t[k - 2] && s[k] == t[k - 1];
      }
    }
  }

  /**
   * The walk from `a` to `b` starts at `a`, ends at `b`, moves one king
   * step at a time and stays inside the rectangle spanned by `a` and `b`.
   */
  lemma LineCellsShape(a: Cell, b: Cell)
    ensures var s := LineCells(a, b);
      && |s| > 0 && s[0] == a && s[|s| - 1] == b
      && (forall k :: 0 <= k < |s| ==> (a.x <= s[k].x <= b.x || b.x <= s[k].x <= a.x) && (a.y <= s[k].y <= b.y || b.y <= s[k].y <= a.y))
      && (forall k :: 0 < k < |s| ==> KingStep(s[k - 1], s[k]))
  {
    LineFromBox(a, b, 0, 0);
    LineFromKing(a, b, 0, 0);
  }

  /** Between two four-adjacent cells the walk visits just the two of them. */
  lemma {:induction false} LineCellsAdjacent(a: Cell, b: Cell)
    requires Adjacent(a, b)
    ensures LineCells(a, b) == [a, b]
  {
    BresenhamStep(a, b, 0, 0);
    var i2 := if StepsX(a, b, 0, 0) then 1 else 0;
    var j2 := if StepsY(a, b, 0, 0) then 1 else 0;
    assert i2 == Dx(a, b) && j2 == Dy(a, b);
    assert LineFrom(a, b, i2, j2) == [b];
  }

  predicate AllWalkable(w: Walkables, s: seq<Cell>) {
    forall k :: 0 <= k < |s| ==> Walkable(w, s[k])
  }

  /** Every cell on the straight walk from `a` to `b` is walkable. */
  predicate LineWalkable(w: Walkables, a: Cell, b: Cell) {
    AllWalkable(w, LineCells(a, b))
  }

  /** A clear line of sight has walkable endpoints. */
  lemma LineWalkableEnds(w: Walkables, a: Cell, b: Cell)
    requires LineWalkable(w, a, b)
    ensures Walkable(w, a) && Walkable(w, b)
  {
    LineCellsShape(a, b);
    assert LineCells(a, b)[|LineCells(a, b)| - 1] == b;
  }

  /** Two adjacent walkable cells always see each other. */
  lemma LineWalkableAdjacent(w: Walkables, a: Cell, b: Cell)
    requires Adjacent(a, b) && Walkable(w, a) && Walkable(w, b)
    ensures LineWalkable(w, a, b)
  {
    LineCellsAdjacent(a, b);
  }

  /** Moving the walk's state by `(di, dj)` moves the error term by `dj * dx - di * dy`. */
  lemma ErrShift(a: Cell, b: Cell, i: int, j: int, di: int, dj: int)
    ensures Err(a, b, i + di, j + dj) == Err(a, b, i, j) - di * Dy(a, b) + dj * Dx(a, b)
  {
    var dx, dy := Dx(a, b), Dy(a, b);
    assert (i + di) * dy == i * dy + di * dy;
    assert (j + dj) * dx == j * dx + dj * dx;
  }

  /** The state after one round of the walk. */
  function NextI(a: Cell, b: Cell, i: nat, j: nat): nat {
    if StepsX(a, b, i, j) then i + 1 else i
  }

  function NextJ(a: Cell, b: Cell, i: nat, j: nat): nat {
    if StepsY(a, b, i, j) then j + 1 else j
  }

  /** The walk from a state starts at that state's cell. */
  lemma LineFromHead(a: Cell, b: Cell, i: nat, j: nat)
    requires i <= Dx(a, b) && j <= Dy(a, b)
    ensures |LineFrom(a, b, i, j)| > 0 && LineFrom(a, b, i, j)[0] == LinePoint(a, b, i, j)
  {
  }

  /** One round changes the error term by `-dy` for a step along x and `+dx` for one along y. */
  lemma ErrNext(a: Cell, b: Cell, i: nat, j: nat)
    ensures Err(a, b, NextI(a, b, i, j), NextJ(a, b, i, j)) ==
      Err(a, b, i, j) - (if StepsX(a, b, i, j) then Dy(a, b) else 0) + (if StepsY(a, b, i, j) then Dx(a, b) else 0)
  {
    var di := if StepsX(a, b, i, j) then 1 else 0;
    var dj := if StepsY(a, b, i, j) then 1 else 0;
    ErrShift(a, b, i, j, di, dj);
  }

  /** Before the end, a round moves the state forward and stays within bounds. */
  lemma NextBounds(a: Cell, b: Cell, i: nat, j: nat)
    requires i <= Dx(a, b) && j <= Dy(a, b) && !(i == Dx(a, b) && j == Dy(a, b))
    ensures NextI(a, b, i, j) <= Dx(a, b) && NextJ(a, b, i, j) <= Dy(a, b)
    ensures NextI(a, b, i, j) + NextJ(a, b, i, j) > i + j
  {
    BresenhamStep(a, b, i, j);
  }

  /** One round of the walk: the current cell, then the rest from the next state. */
  lemma LineFromNext(w: Walkables, a: Cell, b: Cell, i: nat, j: nat)
    requires i <= Dx(a, b) && j <= Dy(a, b) && !(i == Dx(a, b) && j == Dy(a, b))
    requires NextI(a, b, i, j) <= Dx(a, b) && NextJ(a, b, i, j) <= Dy(a, b)
    ensures AllWalkable(w, LineFrom(a, b, i, j)) <==>
      Walkable(w, LinePoint(a, b, i, j)) && AllWalkable(w, LineFrom(a, b, NextI(a, b, i, j), NextJ(a, b, i, j)))
  {
    var t := LineFrom(a, b, NextI(a, b, i, j), NextJ(a, b, i, j));
    var s := LineFrom(a, b, i, j);
    assert s == [LinePoint(a, b, i, j)] + t;
    assert s[0] == LinePoint(a, b, i, j);
    if Walkable(w, LinePoint(a, b, i, j)) && AllWalkable(w, t) {
      forall k | 0 <= k < |s|
        ensures Walkable(w, s[k])
      {
        if k > 0 {
          assert s[k] == t[k - 1];
        }
      }
    }
    if AllWalkable(w, s) {
      forall k | 0 <= k < |t|
        ensures Walkable(w, t[k])
      {
        assert t[k] == s[k + 1];
      }
    }
  }

  /**
   * `is_walkable_line`: walks Bresenham's line from `a` to `b`, giving up at
   * the first unwalkable cell; true exactly when every visited cell is
   * walkable.
   */
  method IsWalkableLine(w: Walkables, a: Cell, b: Cell) returns (ok: bool)
    requires IsGrid(w) && InBounds(w, a) && InBounds(w, b)
    ensures ok == LineWalkable(w, a, b)
  {
    var dx: int := if a.x <= b.x then b.x - a.x else a.x - b.x;
    var dy: int := if a.y <= b.y then b.y - a.y else a.y - b.y;
    var sx := if a.x < b.x then 1 else -1;
    var sy := if a.y < b.y then 1 else -1;
    var err := dx - dy;
    var x: int := a.x;
    var y: int := a.y;
    ghost var i: nat, j: nat := 0, 0;
    while true
      invariant WalkState(a, b, i, j, x, y, err)
      invariant LineWalkable(w, a, b) == AllWalkable(w, LineFrom(a, b, i, j))
      decreases Dx(a, b) - i + Dy(a, b) - j
    {
      ghost var p := LinePoint(a, b, i, j);
      LineFromHead(a, b, i, j);
      assert InBounds(w, p) by {
        assert |w[p.y]| == |w[0]| == |w[a.y]|;
      }
      if !w[y][x] {
        return false;
      }
      if x == b.x && y == b.y {
        assert LineFrom(a, b, i, j) == [p];
        break;
      }
      NextBounds(a, b, i, j);
      LineFromNext(w, a, b, i, j);
      WalkStateStep(a, b, i, j, x, y, err);
      var e2 := 2 * err;
      if e2 > -dy {
        err := err - dy;
        x := x + sx;
      }
      if e2 < dx {
        err := err + dx;
        y := y + sy;
      }
      i, j := NextI(a, b, i, j), NextJ(a, b, i, j);
    }
    return true;
  }

  /** The variables of `is_walkable_line` after `i` steps along x and `j` along y. */
  predicate WalkState(a: Cell, b: Cell, i: nat, j: nat, x: int, y: int, err: int) {
    && i <= Dx(a, b) && j <= Dy(a, b)
    && x == LinePoint(a, b, i, j).x && y == LinePoint(a, b, i, j).y
    && err == Err(a, b, i, j)
  }

  /** One round of the loop of `is_walkable_line` moves its variables to the next state. */
  lemma WalkStateStep(a: Cell, b: Cell, i: nat, j: nat, x: int, y: int, err: int)
    requires WalkState(a, b, i, j, x, y, err) && !(i == Dx(a, b) && j == Dy(a, b))
    ensures var e2 := 2 * err;
      var dx: int := Dx(a, b);
      var dy: int := Dy(a, b);
      var sx := if a.x < b.x then 1 else -1;
      var sy := if a.y < b.y then 1 else -1;
      WalkState(a, b, NextI(a, b, i, j), NextJ(a, b, i, j),
        if e2 > -dy then x + sx else x,
        if e2 < dx then y + sy else y,
        err - (if e2 > -dy then dy else 0) + (if e2 < dx then dx else 0))
  {
    NextBounds(a, b, i, j);
    ErrNext(a, b, i, j);
  }

  /* ---------------------------------------------------------------- */
  /* Greedy smoothing                                                  */
  /* ---------------------------------------------------------------- */

  /**
   * `r` keeps the cells of `path` at the increasing positions `idx`,
   * starting with the first cell; consecutive waypoints see each other, and
   * each waypoint after the first is the last cell of a run that the
   * previous waypoint sees in full, the run ending either at the end of the
   * path or just before a cell the previous waypoint does not see.
   */
  ghost predicate SmoothedUpTo(w: Walkables, path: seq<Cell>, idx: seq<nat>, r: seq<Cell>) {
    WaypointsAt(path, idx, r) && RunsSeen(w, path, idx) && RunsMaximal(w, path, idx)
  }

  /** `r` lists the cells of `path` at the increasing positions `idx`, starting with the first. */
  ghost predicate WaypointsAt(path: seq<Cell>, idx: seq<nat>, r: seq<Cell>) {
    && |idx| == |r| > 0
    && idx[0] == 0
    && (forall k :: 0 <= k < |idx| ==> idx[k] < |path| && r[k] == path[idx[k]])
    && (forall k :: 0 < k < |idx| ==> idx[k - 1] < idx[k])
  }

  /** Each waypoint sees every cell up to and including the next waypoint. */
  ghost predicate RunsSeen(w: Walkables, path: seq<Cell>, idx: seq<nat>)
    requires forall k :: 0 <= k < |idx| ==> idx[k] < |path|
  {
    forall k, m :: 0 < k < |idx| && idx[k - 1] < m <= idx[k] ==> LineWalkable(w, path[idx[k - 1]], path[m])
  }

  /** Each run ends at the end of the path or just before a cell its waypoint does not see. */
  ghost predicate RunsMaximal(w: Walkables, path: seq<Cell>, idx: seq<nat>)
    requires forall k :: 0 <= k < |idx| ==> idx[k] < |path|
  {
    forall k :: 0 < k < |idx| ==> idx[k] + 1 == |path| || !LineWalkable(w, path[idx[k - 1]], path[idx[k] + 1])
  }

  /** The whole of `path` has been smoothed into `r`: the last waypoint is the last cell. */
  ghost predicate IsSmoothing(w: Walkables, path: seq<Cell>, idx: seq<nat>, r: seq<Cell>) {
    SmoothedUpTo(w, path, idx, r) && idx[|idx| - 1] == |path| - 1
  }

  ghost predicate Smooths(w: Walkables, path: seq<Cell>, r: seq<Cell>) {
    exists idx :: IsSmoothing(w, path, idx, r)
  }

  /** A walk whose every cell, the first included, is walkable. */
  predicate IsWalkableWalk(w: Walkables, path: seq<Cell>) {
    IsWalk(w, path) && Walkable(w, path[0])
  }

  /**
   * A smoothing of a path keeps its first and last cells, and consecutive
   * waypoints see each other.
   */
  lemma SmoothingShape(w: Walkables, path: seq<Cell>, idx: seq<nat>, r: seq<Cell>)
    requires IsSmoothing(w, path, idx, r)
    ensures r[0] == path[0] && r[|r| - 1] == path[|path| - 1]
    ensures forall k :: 0 < k < |r| ==> LineWalkable(w, r[k - 1], r[k])
  {
    forall k | 0 < k < |r|
      ensures LineWalkable(w, r[k - 1], r[k])
    {
      assert idx[k - 1] < idx[k] <= idx[k];
    }
  }

  /**
   * `smooth_path`: from each waypoint, extends the run of cells it sees as
   * far as possible and jumps to the last of them. The path must be a walk
   * over walkable cells: on a pair of consecutive cells that do not see each
   * other the source loops forever.
   */
  method SmoothPath(w: Walkables, path: seq<Cell>) returns (r: seq<Cell>, ghost idx: seq<nat>)
    requires IsGrid(w) && IsWalkableWalk(w, path)
    ensures IsSmoothing(w, path, idx, r)
  {
    r := [path[0]];
    idx := [0];
    var i := 0;
    while i < |path| - 1
      invariant 0 <= i < |path|
      invariant SmoothedUpTo(w, path, idx, r) && idx[|idx| - 1] == i
      decreases |path| - i
    {
      var j := LongestSight(w, path, i);
      SmoothedExtend(w, path, idx, r, j);
      r := r + [path[j - 1]];
      idx := idx + [j - 1];
      i := j - 1;
    }
  }

  /**
   * The inner loop of `smooth_path`: the first position `j` after `i` whose
   * cell `path[i]` does not see, or the end of the path; all cells in
   * between are seen, and there is at least one of them.
   */
  method LongestSight(w: Walkables, path: seq<Cell>, i: nat) returns (j: nat)
    requires IsGrid(w) && IsWalkableWalk(w, path) && i + 1 < |path|
    ensures i + 2 <= j <= |path|
    ensures forall m :: i < m < j ==> LineWalkable(w, path[i], path[m])
    ensures j == |path| || !LineWalkable(w, path[i], path[j])
  {
    assert Walkable(w, path[i]) && Walkable(w, path[i + 1]) && Adjacent(path[i], path[i + 1]) by {
      if i > 0 {
        assert Walkable(w, path[i]);
      }
    }
    j := i + 1;
    var more := IsWalkableLine(w, path[i], path[j]);
    LineWalkableAdjacent(w, path[i], path[i + 1]);
    while more
      invariant i + 2 <= j + 1 <= |path| + 1 && j <= |path|
      invariant more == (j < |path| && LineWalkable(w, path[i], path[j]))
      invariant forall m :: i < m < j ==> LineWalkable(w, path[i], path[m])
      decreases |path| - j
    {
      j := j + 1;
      if j < |path| {
        assert Walkable(w, path[j]);
        more := IsWalkableLine(w, path[i], path[j]);
      } else {
        more := false;
      }
    }
  }

  /** Appending the waypoint the inner loop stops at keeps the smoothing invariant. */
  lemma SmoothedExtend(w: Walkables, path: seq<Cell>, idx: seq<nat>, r: seq<Cell>, j: nat)
    requires SmoothedUpTo(w, path, idx, r)
    requires idx[|idx| - 1] + 2 <= j <= |path|
    requires forall m :: idx[|idx| - 1] < m < j ==> LineWalkable(w, path[idx[|idx| - 1]], path[m])
    requires j == |path| || !LineWalkable(w, path[idx[|idx| - 1]], path[j])
    ensures SmoothedUpTo(w, path, idx + [j - 1], r + [path[j - 1]])
  {
    ExtendWaypoints(path, idx, r, j);
    ExtendRunsSeen(w, path, idx, j);
    ExtendRunsMaximal(w, path, idx, j);
  }

  lemma ExtendWaypoints(path: seq<Cell>, idx: seq<nat>, r: seq<Cell>, j: nat)
    requires WaypointsAt(path, idx, r)
    requires idx[|idx| - 1] + 2 <= j <= |path|
    ensures WaypointsAt(path, idx + [j - 1], r + [path[j - 1]])
  {
    var idx2, r2 := idx + [j - 1], r + [path[j - 1]];
    forall k | 0 <= k < |idx2|
      ensures idx2[k] < |path| && r2[k] == path[idx2[k]]
    {
      if k < |idx| {
        assert idx2[k] == idx[k] && r2[k] == r[k];
      }
    }
  }

  lemma ExtendRunsSeen(w: Walkables, path: seq<Cell>, idx: seq<nat>, j: nat)
    requires |idx| > 0 && forall k :: 0 <= k < |idx| ==> idx[k] < |path|
    requires RunsSeen(w, path, idx)
    requires idx[|idx| - 1] + 2 <= j <= |path|
    requires forall m :: idx[|idx| - 1] < m < j ==> LineWalkable(w, path[idx[|idx| - 1]], path[m])
    ensures RunsSeen(w, path, idx + [j - 1])
  {
    var idx2 := idx + [j - 1];
    forall k, m | 0 < k < |idx2| && idx2[k - 1] < m <= idx2[k]
      ensures LineWalkable(w, path[idx2[k - 1]], path[m])
    {
      if k < |idx| {
        assert idx2[k - 1] == idx[k - 1] && idx2[k] == idx[k];
      }
    }
  }

  lemma ExtendRunsMaximal(w: Walkables, path: seq<Cell>, idx: seq<nat>, j: nat)
    requires |idx| > 0 && forall k :: 0 <= k < |idx| ==> idx[k] < |path|
    requires RunsMaximal(w, path, idx)
    requires idx[|idx| - 1] + 2 <= j <= |path|
    requires j == |path| || !LineWalkable(w, path[idx[|idx| - 1]], path[j])
    ensures RunsMaximal(w, path, idx + [j - 1])
  {
    var idx2 := idx + [j - 1];
    forall k | 0 < k < |idx2|
      ensures idx2[k] + 1 == |path| || !LineWalkable(w, path[idx2[k - 1]], path[idx2[k] + 1])
    {
      if k < |idx| {
        assert idx2[k - 1] == idx[k - 1] && idx2[k] == idx[k];
      }
    }
  }

  /* ---------------------------------------------------------------- */
  /* find_path                                                          */
  /* ---------------------------------------------------------------- */

  /** `PathCost`: the cells of a route and the number of unit moves A* charged for it. */
  datatype PathCost = PathCost(path: seq<Cell>, cost: nat)

  /**
   * What `find_path` promises about a result: without smoothing, a route
   * from `start` to `goal` whose cost is its number of moves; with
   * smoothing, the smoothing of such a route, still charged the cost of the
   * unsmoothed route.
   */
  ghost predicate FoundPath(w: Walkables, start: Cell, goal: Cell, isSmooth: bool, pc: PathCost) {
    if isSmooth then
      exists p :: IsRoute(w, p, start, goal) && pc.cost == Moves(p) && Smooths(w, p, pc.path)
    else
      IsRoute(w, pc.path, start, goal) && pc.cost == Moves(pc.path)
  }

  /**
   * A* calls `successors` on every cell it expands: `start` (unless it is
   * the goal) and, after it, only cells reachable from `start`. When all of
   * those are interior, `successors` never panics.
   */
  ghost predicate EdgeFree(w: Walkables, start: Cell)
    requires IsGrid(w)
  {
    forall c :: Reachable(w, start, c) ==> Interior(w, c)
  }

  /** A grid whose walkable cells are all interior is edge-free from any interior cell. */
  lemma {:induction false} ClosedBorderEdgeFree(w: Walkables, start: Cell)
    requires IsGrid(w) && Interior(w, start)
    requires forall c :: Walkable(w, c) ==> Interior(w, c)
    ensures EdgeFree(w, start)
  {
    forall c | Reachable(w, start, c)
      ensures Interior(w, c)
    {
      var p :| IsRoute(w, p, start, c);
      if |p| > 1 {
        assert Walkable(w, p[|p| - 1]);
      }
    }
  }

  /**
   * `find_path` as written. The A* result is unwrapped with `expect`, so an
   * unreachable goal panics and the `Err` the signature advertises never
   * happens. A* expands `start` first unless it is the goal, and
   * `successors` panics on a cell at the grid's edge. Which further cells
   * A* expands depends on its queue order, which is not modelled: where an
   * edge cell is reachable from an interior `start`, the contract leaves
   * the outcome open, and the search here returns the route. Smoothing
   * is asked for a walkable start: on a route of two or more cells whose
   * first cell is not walkable it never terminates.
   */
  method FindPath(w: Walkables, start: Cell, goal: Cell, isSmooth: bool) returns (r: Run<PathCost>)
    requires IsGrid(w) && InBounds(w, start)
    requires isSmooth ==> Walkable(w, start)
    ensures !Reachable(w, start, goal) ==> r.Panic?
    ensures start != goal && !Interior(w, start) ==> r.Panic?
    ensures EdgeFree(w, start) ==> (r.Panic? <==> !Reachable(w, start, goal))
    ensures r.Done? ==> FoundPath(w, start, goal, isSmooth, r.value)
  {
    if EdgeFree(w, start) {
      assert IsRoute(w, [start], start, start);
    }
    if start != goal && !Interior(w, start) {
      return Panic;
    }
    var found := Search(w, start, goal);
    if found.None? {
      return Panic;
    }
    var path := found.value;
    if isSmooth {
      var smoothed, idx := SmoothPath(w, path);
      r := Done(PathCost(smoothed, Moves(path)));
    } else {
      r := Done(PathCost(path, Moves(path)));
    }
  }

  /**
   * `find_path` as its `Result` signature intends: `None` (the `Err`) when
   * the goal is unreachable, which its callers in src/maps/gen.rs rely on.
   * Its search looks only at neighbours inside the grid, as the `TOFIX` on
   * `successors` asks, so a cell at the edge never panics.
   */
  method TryFindPath(w: Walkables, start: Cell, goal: Cell, isSmooth: bool) returns (r: Option<PathCost>)
    requires IsGrid(w) && InBounds(w, start)
    requires isSmooth ==> Walkable(w, start)
    ensures r.None? <==> !Reachable(w, start, goal)
    ensures r.Some? ==> FoundPath(w, start, goal, isSmooth, r.value)
  {
    var found := Search(w, start, goal);
    if found.None? {
      return None;
    }
    var path := found.value;
    if isSmooth {
      var smoothed, idx := SmoothPath(w, path);
      r := Some(PathCost(smoothed, Moves(path)));
    } else {
      r := Some(PathCost(path, Moves(path)));
    }
  }

  /** A walk from below row `wall` to above it crosses that row. */
  lemma {:induction false} WalkCrossesRow(w: Walkables, p: seq<Cell>, wall: nat)
    requires IsWalk(w, p) && p[0].y > wall && p[|p| - 1].y < wall
    ensures exists k: nat :: 0 < k < |p| && p[k].y == wall && Walkable(w, p[k])
  {
    var k := 0;
    while p[k].y != wall && k < |p| - 1
      invariant 0 <= k < |p| && p[k].y >= wall
      decreases |p| - k
    {
      assert Adjacent(p[k], p[k + 1]);
      k := k + 1;
    }
    assert p[k].y == wall && Walkable(w, p[k]);
  }

  /**
   * A grid with a full row of unwalkable cells between start and goal has
   * no route, so `FindPath` panics on it.
   */
  lemma WallBlocksRoute(w: Walkables, start: Cell, goal: Cell, wall: nat)
    requires IsGrid(w) && wall < |w| && (forall x :: 0 <= x < |w[wall]| ==> !w[wall][x])
    requires start.y > wall && goal.y < wall
    ensures !Reachable(w, start, goal)
  {
    if Reachable(w, start, goal) {
      var p: seq<Cell> :| IsRoute(w, p, start, goal);
      WalkCrossesRow(w, p, wall);
    }
  }

  /* ---------------------------------------------------------------- */
  /* generate_map                                                       */
  /* ---------------------------------------------------------------- */

  const Size: nat := 8

  const StartTile: string := "\U{1F195}"
  const GoalTile: string := "\U{1F192}"
  const GateTile: string := "\U{1F6AA}"
  const TreeTile: string := "\U{1F333}"
  const CoinTile: string := "\U{1F4B0}"
  const SkullTile: string := "\U{1F480}"
  const TrailTile: string := "➖"

  type Tiles = seq<seq<string>>

  /** Gates and trees block; every other symbol, unknown ones included, is walkable. */
  predicate TileWalkable(t: string) {
    t != GateTile && t != TreeTile
  }

  /** The tile grid has at least 8 rows of at least 8 symbols: what `generate_map` reads. */
  predicate HasBoard(m: Tiles) {
    |m| >= Size && forall y :: 0 <= y < Size ==> |m[y]| >= Size
  }

  predicate OnBoard(c: Cell) {
    c.x < Size && c.y < Size
  }

  /** `c` comes before `d` in row-major order, the order `generate_map` scans in. */
  predicate Precedes(c: Cell, d: Cell) {
    c.y < d.y || (c.y == d.y && c.x < d.x)
  }

  ghost predicate Occurs(m: Tiles, t: string)
    requires HasBoard(m)
  {
    exists c :: OnBoard(c) && m[c.y][c.x] == t
  }

  /** `c` holds `t` and no later cell in row-major order does. */
  ghost predicate LastOccurrence(m: Tiles, t: string, c: Cell)
    requires HasBoard(m)
  {
    && OnBoard(c) && m[c.y][c.x] == t
    && forall d :: OnBoard(d) && Precedes(c, d) ==> m[d.y][d.x] != t
  }

  /** Where `generate_map` puts a marker: its last occurrence, or (0, 0) when it is absent. */
  ghost predicate MarkerAt(m: Tiles, t: string, c: Cell)
    requires HasBoard(m)
  {
    if Occurs(m, t) then LastOccurrence(m, t, c) else c == Cell(0, 0)
  }

  predicate IsBoardGrid(w: Walkables) {
    |w| == Size && forall y :: 0 <= y < Size ==> |w[y]| == Size
  }

  /** The walkability the board's symbols give. */
  ghost predicate WalkablesOf(m: Tiles, w: Walkables)
    requires HasBoard(m)
  {
    IsBoardGrid(w) && forall c :: OnBoard(c) ==> w[c.y][c.x] == TileWalkable(m[c.y][c.x])
  }

  /**
   * A point of the scan: `p` is the next cell to read; `Cell(8, y)` is the
   * end of row `y` and `Cell(0, 8)` the end of the board.
   */
  predicate ScanPoint(p: Cell) {
    p.y <= Size && p.x <= Size && (p.y == Size ==> p.x == 0)
  }

  /** Some board cell scanned before `p` holds `t`. */
  ghost predicate SeenBefore(m: Tiles, t: string, p: Cell)
    requires HasBoard(m)
  {
    exists c :: OnBoard(c) && Precedes(c, p) && m[c.y][c.x] == t
  }

  /** `c` is the last board cell scanned before `p` that holds `t`. */
  ghost predicate LastBefore(m: Tiles, t: string, c: Cell, p: Cell)
    requires HasBoard(m)
  {
    && OnBoard(c) && Precedes(c, p) && m[c.y][c.x] == t
    && forall d :: OnBoard(d) && Precedes(c, d) && Precedes(d, p) ==> m[d.y][d.x] != t
  }

  /** The last board cell before the scan point `p` that holds `t`, if any. */
  function LastMarker(m: Tiles, t: string, p: Cell): Option<Cell>
    requires HasBoard(m) && ScanPoint(p)
    decreases p.y, p.x
  {
    if p.x == 0 then
      if p.y == 0 then None else LastMarker(m, t, Cell(Size, p.y - 1))
    else if m[p.y][p.x - 1] == t then Some(Cell(p.x - 1, p.y))
    else LastMarker(m, t, Cell(p.x - 1, p.y))
  }

  /** The board cells before a scan point are those before the previous point and the cell between. */
  lemma PrecedesStep(c: Cell, p: Cell)
    requires OnBoard(c) && ScanPoint(p) && p != Cell(0, 0)
    ensures p.x == 0 ==> (Precedes(c, p) <==> Precedes(c, Cell(Size, p.y - 1)))
    ensures p.x > 0 ==> (Precedes(c, p) <==> Precedes(c, Cell(p.x - 1, p.y)) || c == Cell(p.x - 1, p.y))
  {
  }

  /**
   * `LastMarker` finds the last occurrence before the scan point, and finds
   * nothing exactly when there is none.
   */
  lemma {:induction false} LastMarkerSpec(m: Tiles, t: string, p: Cell)
    requires HasBoard(m) && ScanPoint(p)
    ensures LastMarker(m, t, p).None? <==> !SeenBefore(m, t, p)
    ensures LastMarker(m, t, p).Some? ==> LastBefore(m, t, LastMarker(m, t, p).value, p)
    decreases p.y, p.x
  {
    if p != Cell(0, 0) {
      var q := if p.x == 0 then Cell(Size, p.y - 1) else Cell(p.x - 1, p.y);
      forall c | OnBoard(c)
        ensures Precedes(c, p) <==> Precedes(c, q) || (p.x > 0 && c == q)
      {
        PrecedesStep(c, p);
      }
      if p.x == 0 || m[p.y][p.x - 1] != t {
        LastMarkerSpec(m, t, q);
        if SeenBefore(m, t, p) {
          var d :| OnBoard(d) && Precedes(d, p) && m[d.y][d.x] == t;
          assert SeenBefore(m, t, q);
        }
      }
    }
  }

  /** What `generate_map` records for a marker: the last of all 64 cells holding it, or (0, 0). */
  lemma MarkerAtLast(m: Tiles, t: string)
    requires HasBoard(m)
    ensures MarkerAt(m, t, LastMarker(m, t, Cell(0, Size)).GetOr(Cell(0, 0)))
  {
    LastMarkerSpec(m, t, Cell(0, Size));
    if Occurs(m, t) {
      var d :| OnBoard(d) && m[d.y][d.x] == t;
      assert SeenBefore(m, t, Cell(0, Size));
    }
  }

  /**
   * What `generate_map` knows when its scan reaches `p`: the walkability of
   * every cell before `p`, and the markers among them.
   */
  ghost predicate ScannedUpTo(m: Tiles, w: Walkables, start: Cell, goal: Cell, p: Cell)
    requires HasBoard(m) && ScanPoint(p)
  {
    && IsBoardGrid(w)
    && (forall c :: OnBoard(c) && Precedes(c, p) ==> w[c.y][c.x] == TileWalkable(m[c.y][c.x]))
    && start == LastMarker(m, StartTile, p).GetOr(Cell(0, 0))
    && goal == LastMarker(m, GoalTile, p).GetOr(Cell(0, 0))
  }

  /** The end of a row is the start of the next. */
  lemma RowDone(m: Tiles, w: Walkables, start: Cell, goal: Cell, y: nat)
    requires HasBoard(m) && y < Size && ScannedUpTo(m, w, start, goal, Cell(Size, y))
    ensures ScannedUpTo(m, w, start, goal, Cell(0, y + 1))
  {
    forall c | OnBoard(c)
      ensures Precedes(c, Cell(0, y + 1)) <==> Precedes(c, Cell(Size, y))
    {
      PrecedesStep(c, Cell(0, y + 1));
    }
  }

  /** Reading one more cell the way `generate_map` does keeps `ScannedUpTo`. */
  lemma ScanStep(m: Tiles, w: Walkables, start: Cell, goal: Cell, cell: Cell)
    requires HasBoard(m) && OnBoard(cell) && ScannedUpTo(m, w, start, goal, cell)
    ensures ScannedUpTo(m, w[cell.y := w[cell.y][cell.x := TileWalkable(m[cell.y][cell.x])]],
      if m[cell.y][cell.x] == StartTile then cell else start,
      if m[cell.y][cell.x] == GoalTile then cell else goal, Cell(cell.x + 1, cell.y))
  {
    var w2 := w[cell.y := w[cell.y][cell.x := TileWalkable(m[cell.y][cell.x])]];
    forall c | OnBoard(c) && Precedes(c, Cell(cell.x + 1, cell.y))
      ensures w2[c.y][c.x] == TileWalkable(m[c.y][c.x])
    {
      PrecedesStep(c, Cell(cell.x + 1, cell.y));
    }
  }

  /** The body of `generate_map`'s loops: one symbol read and acted on. */
  method ScanCell(m: Tiles, w: Walkables, start: Cell, goal: Cell, cell: Cell)
    returns (w2: Walkables, start2: Cell, goal2: Cell)
    requires HasBoard(m) && OnBoard(cell) && IsBoardGrid(w)
    ensures w2 == w[cell.y := w[cell.y][cell.x := TileWalkable(m[cell.y][cell.x])]]
    ensures start2 == if m[cell.y][cell.x] == StartTile then cell else start
    ensures goal2 == if m[cell.y][cell.x] == GoalTile then cell else goal
  {
    var x, y := cell.x, cell.y;
    w2, start2, goal2 := w, start, goal;
    match m[y][x]
    case "\U{1F195}" =>
      start2 := Cell(x, y);
      w2 := w[y := w[y][x := true]];
    case "\U{1F192}" =>
      goal2 := Cell(x, y);
      w2 := w[y := w[y][x := true]];
    case "\U{1F6AA}" =>
      w2 := w[y := w[y][x := false]];
    case "\U{1F333}" =>
      w2 := w[y := w[y][x := false]];
    case _ =>
      w2 := w[y := w[y][x := true]];
  }

  /**
   * `generate_map`: fills an 8x8 walkability grid from the symbols, and
   * records the last start and goal markers in row-major order (both are
   * (0, 0) by default).
   */
  method GenerateMap(m: Tiles) returns (w: Walkables, start: Cell, goal: Cell)
    requires HasBoard(m)
    ensures WalkablesOf(m, w)
    ensures start == LastMarker(m, StartTile, Cell(0, Size)).GetOr(Cell(0, 0))
    ensures goal == LastMarker(m, GoalTile, Cell(0, Size)).GetOr(Cell(0, 0))
    ensures MarkerAt(m, StartTile, start) && MarkerAt(m, GoalTile, goal)
  {
    var row := [false, false, false, false, false, false, false, false];
    w := [row, row, row, row, row, row, row, row];
    start, goal := Cell(0, 0), Cell(0, 0);
    for y := 0 to Size
      invariant ScannedUpTo(m, w, start, goal, Cell(0, y))
    {
      for x := 0 to Size
        invariant ScannedUpTo(m, w, start, goal, Cell(x, y))
      {
        ScanStep(m, w, start, goal, Cell(x, y));
        w, start, goal := ScanCell(m, w, start, goal, Cell(x, y));
      }
      RowDone(m, w, start, goal, y);
    }
    MarkerAtLast(m, StartTile);
    MarkerAtLast(m, GoalTile);
  }

  /* ---------------------------------------------------------------- */
  /* convert_map_to_screen                                              */
  /* ---------------------------------------------------------------- */

  /** The number of bytes of a character in UTF-8. */
  function Utf8Width(ch: char): nat {
    if ch as int < 0x80 then 1 else if ch as int < 0x800 then 2 else if ch as int < 0x10000 then 3 else 4
  }

  /** `String::len`: the length in UTF-8 bytes. */
  function Utf8Len(s: string): nat {
    if s == [] then 0 else Utf8Width(s[0]) + Utf8Len(s[1..])
  }

  /** `char::to_ascii_lowercase`. */
  function AsciiLower(ch: char): char {
    if 'A' <= ch <= 'Z' then (ch as int + 32) as char else ch
  }

  predicate IsFile(ch: char) { 'a' <= AsciiLower(ch) <= 'h' }

  predicate IsRank(ch: char) { '1' <= ch <= '8' }

  /**
   * `convert_map_to_screen`: "a1" is (0, 0) and "h8" is (7, 7); the letter
   * is case-insensitive, anything after the second character is ignored,
   * and anything else is `None`.
   */
  function ConvertMapToScreen(s: string): (r: Option<Cell>)
    ensures r.Some? <==> |s| >= 2 && IsFile(s[0]) && IsRank(s[1])
    ensures r.Some? ==> OnBoard(r.value)
    ensures r.Some? ==> r.value.x == AsciiLower(s[0]) as int - 'a' as int && r.value.y == s[1] as int - '1' as int
  {
    Utf8LenBounds(s);
    if Utf8Len(s) < 2 then
      None
    else if !IsFile(s[0]) then
      None
    else
      Utf8LenBounds(s[1..]);
      if IsRank(s[1]) then Some(Cell(AsciiLower(s[0]) as int - 'a' as int, s[1] as int - '1' as int)) else None
  }

  /** Every character takes one to four bytes. */
  lemma {:induction false} Utf8LenBounds(s: string)
    ensures |s| <= Utf8Len(s) <= 4 * |s|
  {
    if s != [] {
      Utf8LenBounds(s[1..]);
    }
  }

  /** The coordinate name of a board cell, lower case. */
  function ScreenName(c: Cell): string
    requires OnBoard(c)
  {
    [('a' as int + c.x) as char, ('1' as int + c.y) as char]
  }

  /** Naming a cell and parsing the name gives the cell back. */
  lemma ConvertScreenName(c: Cell)
    requires OnBoard(c)
    ensures ConvertMapToScreen(ScreenName(c)) == Some(c)
  {
  }

  /** A parsed coordinate names the cell it parses to, up to the case of the letter. */
  lemma ScreenNameConvert(s: string)
    requires ConvertMapToScreen(s).Some?
    ensures ScreenName(ConvertMapToScreen(s).value) == [AsciiLower(s[0]), s[1]]
  {
  }

  /** Characters after the second never change the result. */
  lemma ConvertIgnoresTail(s: string, t: string)
    requires |s| >= 2
    ensures ConvertMapToScreen(s + t) == ConvertMapToScreen(s)
  {
    assert (s + t)[0] == s[0] && (s + t)[1] == s[1];
  }
}
